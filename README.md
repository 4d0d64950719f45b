# School management: a Dafny model of the grade, attendance and code rules

The application is a school management system. It has:

- a school dashboard (`school.js`), where a school keeps a list of subjects and a list of students;
- a student portal (`student.js`), meant to show a student their scores and attendance;
- a server-side database layer (`database.js`) on SQLite.

This project models the logic of those three files and proves what that logic guarantees.

**The dashboard.** Each student has one record of grades per subject. A record holds six grading periods: month 1, month 2, midterm, month 3, month 4 and final. A stored value reads as `parseInt(value) || 0`.

- The subject's *latest grade* is the first positive value, scanning from final back to month 1. It decides the subject's result: pending, pass (50 and up) or fail.
- The grades table totals each period over the listed subjects. It also shows each period's average and an overall average when at least one subject is listed.
- Opening the grades window gives every listed subject an all-zero record where it has none. Typing a grade stores it.
- Subjects can be added, renamed and deleted. Blank names and duplicates are refused.
- Attendance is a log keyed by date. Adding a day marks every listed subject present. A single status can be set, and a day can be deleted.
- Student codes look like `STD-<last six digits of the clock>-<random chunk>`. New codes are drawn until one is not already a student's code.

**The portal.**

- A score is shown with an appraisal text and a style class. These two use different bands.
- The stored JSON is decoded forgivingly: a missing text, empty text or unparsable text all become `{}`.
- The attendance list shows the logged dates sorted as strings, newest first.
- The portal reads the `scores` and `attendance` fields of the logged-in student's record. Which fields the server's login answer actually carries is decided in `server.js`, which is not part of this model.

**The database layer.**

- The connection is opened once and then kept.
- Creating the tables seeds the `admin` user only when it is missing.
- School codes (`SCH-…`) are drawn until the `schools` table does not hold the code. A failed lookup ends the search with its error.

**Module layout.**

| module | file | contents |
|---|---|---|
| `Text` | `text.dfy` | The JavaScript string primitives the code relies on: `trim`, `parseInt` without a radix, `toString` of an integer, `slice(-n)`, `substr`, `toUpperCase`, and the `<` order of strings that `sort()` uses. |
| `Codes` | `codes.dfy` | The code shape shared by student and school codes. |
| `Grades` | `grades.dfy` | The pure grade rules of the dashboard. |
| `School` | `school.dfy` | The dashboard's state: a `Student` class and a `Dashboard` class whose methods edit it in place. |
| `Portal` | `portal.dfy` | The portal's display rules. |
| `Database` | `database.dfy` | The connection, the admin seed and the school-code search, with `Connection` and `Store` classes. |

**What is a parameter.** The model takes these as inputs rather than computing them:

- the clock (`Date.now()`) and the random text (`Math.random().toString(36)`);
- the answer of a save to the server;
- the answer of a confirmation dialog and the text of a prompt;
- whether a database lookup fails;
- the bcrypt hash;
- `JSON.parse` itself.

A search that the source would repeat without bound is given a finite sequence of draws. Running out of draws stands for the search going on.

## Model

| member | source | states |
|---|---|---|
| Text.Trim | school.js:136 | `trim()` gives the middle slice of its input that has only white space before and after it. That slice is empty exactly when the input is all white space, and otherwise begins and ends with a non-space character |
| Text.TrimIdempotent | school.js:178-179 | trimming an already trimmed name changes nothing, so the trimmed reply compared with the old name is the one stored |
| Text.NatToString | school.js:203 | `toString()` of a non-negative integer is one or more decimal digits, with a leading "0" only for 0 itself |
| Text.NatToStringValue | school.js:203 | the digits `toString()` writes denote the number itself |
| Text.IntToString | school.js:473 | `String(i)` starts with a minus sign exactly for a negative number, followed by digits without a leading zero |
| Text.ParseInt | school.js:473 | `parseInt` without a radix skips leading white space, reads an optional sign and an optional "0x" prefix, then the longest run of digits. It gives NaN (None) unless a digit follows, gives a negative value only after a minus sign, and gives a value whenever a decimal digit comes first. Double precision is left out |
| Text.ParseIntOrZero | school.js:473 | `parseInt(v) \|\| 0` is the parsed value, or 0 when `parseInt` gives NaN |
| Text.ParseIntOfIntToString | school.js:473 | `parseInt` reads back the integer that `String(i)` wrote. This still holds with any tail that does not start with a digit, except a tail that would turn a lone "0" into "0x" |
| Text.BlankParsesAsZero | school.js:473 | an empty or all-blank field reads as NaN, so `parseInt(value) \|\| 0` is 0 |
| Text.SliceLast | school.js:203 | `slice(-n)` is a tail of its input of at most n characters, and the whole input when that is no longer than n |
| Text.SliceLastFull | school.js:203 | an input longer than n gives exactly n characters |
| Text.Substr | school.js:204 | `substr(start, length)` has `length` characters, fewer when the input ends first and none when it starts past the end. Its i-th character is the input's (start + i)-th |
| Text.ToUpper | school.js:204 | `toUpperCase` keeps the length and maps every character through the ASCII upper-casing |
| Text.Less | student.js:92 | the string order of `sort()`: never between equal strings, and between a string and an extension of it, exactly the shorter one is below. Characters compare as code points |
| Text.LessTransitive | student.js:92 | the string order that `sort()` uses is transitive |
| Text.LessTotal | student.js:92 | any two different strings are ordered one way or the other |
| Text.LessAsymmetric | student.js:92 | no two strings are each below the other |
| Text.DigitsOrder | student.js:92 | for digit strings of equal length, string order is numeric order, and string equality is numeric equality |
| Codes.MakeCode | school.js:202-206 | a generated code splits back into its clock part and its random part. The clock part is 1 to 6 digits, exactly 6 once the clock reads at least 100000. The random part has at most 3 characters, each a digit or an upper-case letter for base-36 random text |
| Codes.ClockPart | school.js:203 | `Date.now().toString().slice(-6)` is a tail of the clock's decimal text of at most 6 characters |
| Codes.RandomPart | school.js:204 | `substr(2, 3).toUpperCase()` has at most 3 characters, exactly 3 when the random text has 5 or more. Each is the upper-cased character two places further on in the random text |
| Codes.ClockPartDigits | school.js:203 | `Date.now().toString().slice(-6)` is 1–6 decimal digits, and exactly 6 from 100000 on |
| Codes.RandomPartChars | school.js:204 | `substr(2, 3).toUpperCase()` has at most 3 characters, each a digit or a capital letter when the random text is base 36 |
| Codes.SplitJoin | school.js:205 | splitting `<prefix>-<digits>-<rest>` gives back the digits and the rest |
| Codes.MakeCodeInjective | school.js:202-206 | equal codes come from the same clock part and the same random part |
| Codes.ShortRandomChunk | school.js:204 | the random chunk can be shorter than three characters: the random text "0.i" gives "I" |
| Grades.CellValue | school.js:407 | `parseInt(cell) \|\| 0`: an integer cell reads as itself, a text as `parseInt(text) \|\| 0`, and any other value as 0 |
| Grades.CellValueOfNumber | school.js:407 | an integer cell reads as `parseInt` of its decimal text, as the source's `parseInt` of a number does |
| Grades.ZeroEntryIsZero | school.js:329-336 | the record given to a subject without one reads 0 in every period |
| Grades.LatestInCharacterized | school.js:402-414 | scanning an order of periods yields no period exactly when none is positive, and then grade 0. Otherwise it yields the first positive period of the order, with its value |
| Grades.GetLatestGrade | school.js:402-414 | the loop over final, month4, month3, midterm, month2, month1 returns the first period with a positive value, with that value. With none, it returns grade 0 and period 'none' |
| Grades.GradeResult | school.js:416-427 | pending exactly for grade 0, pass exactly from 50 up, fail exactly for the other grades |
| Grades.SubjectResult | school.js:374-376 | a subject is pending exactly when no period is positive. Otherwise it passes exactly when its newest positive period is at least 50 |
| Grades.ScanIndex | school.js:404 | every period has a place in the scan order |
| Grades.TableIndex | school.js:352-359 | every period has a place in the totals record |
| Grades.ZeroTotalsComplete | school.js:352-359 | the initial totals record holds every period, all 0 |
| Grades.AddToTotals | school.js:369-372 | the loop over the totals' keys adds the subject's value of each period to that period's total and to no other |
| Grades.BuildRow | school.js:364-376 | a row holds the subject's record (all zeros when missing), its latest grade and its result |
| Grades.GradesTable | school.js:344-400 | one row per listed subject in list order. Each period's total is its sum over the listed subjects |
| Grades.TotalsStep | school.js:369-372 | counting one more subject keeps every total equal to its sum over the subjects counted so far |
| Grades.PeriodTotalStep | school.js:363-372 | a period's total over one more subject is the old total plus that subject's value |
| Grades.Averaged | school.js:439-457 | averages exist exactly when at least one subject is listed. Each period's average times the subject count is its total. The overall average times six times the count is the sum of the six totals |
| Grades.OverallIsMeanOfPeriods | school.js:454-456 | the overall average is the mean of the six period averages |
| Grades.TotalsIgnoreUnlisted | school.js:363-372 | records of subjects that are not listed change no total |
| Grades.TotalBounds | school.js:369-372 | with every listed value between 0 and 100, a period's total lies between 0 and 100 times the subject count |
| Grades.AveragesInRange | school.js:439-457 | with every listed value between 0 and 100, every average lies between 0 and 100 |
| Grades.TwoSubjectExample | school.js:352-457 | with subjects A and B graded 80 and 60 in the final only, the final total is 140, the final average 70 and the overall average 140/12 |
| School.Put | school.js:469-473 | `m[k][l] = v`, creating `m[k]` when missing, sets exactly that cell and keeps every other key and cell |
| School.WithEntries | school.js:327-338 | after the fill, every listed subject has a record and existing records are kept. New records are all zeros, and nothing else is added |
| School.FillKeepsTable | school.js:327-376 | filling in missing records changes no row and no total of the grades table |
| School.FillIdempotent | school.js:327-338 | opening the grades window a second time adds nothing |
| School.GradeEditEffect | school.js:461-473 | a grade edit stores `parseInt(value) \|\| 0` under the subject and period. Every other period and every other subject reads as before |
| School.TypedGradeStored | school.js:473 | a typed integer is stored as that integer, and a cleared field as 0 |
| School.PresentDay | school.js:541-544 | a new day holds exactly the listed subjects, each marked present |
| School.Student.FillGrades | school.js:327-338 | the loop leaves the grades equal to the filled map |
| School.Student.AddPresentDay | school.js:541-544 | the loop leaves the log with the date set to a day with every listed subject present, and every other date as it was |
| School.Find | school.js:321 | `find` gives the first student with the id. None means no student has it |
| School.CodeTaken | school.js:212 | `students.some(...)` holds exactly when some student's code is the candidate |
| School.StudentCode | school.js:202-206 | a student code starts with "STD-" and splits back into its clock and random parts |
| School.AfterAdd | school.js:133-154 | a blank name is refused and an already listed name is refused. Any other name is appended trimmed. A list without duplicates keeps none |
| School.AfterEdit | school.js:175-191 | a non-blank trimmed reply that is not listed replaces the name at that index. A listed one other than the old name is refused. A cancelled, blank or unchanged reply does nothing. Other positions stay, and no duplicate appears |
| School.AfterDelete | school.js:193-200 | once confirmed, the name at the index is taken out and the rest keep their order; an index past the end takes nothing out. Without confirmation nothing changes. No duplicate appears |
| School.DeleteRemovesOne | school.js:195 | a deletion removes exactly one occurrence of the name, as a multiset |
| School.Dashboard.AddSubject | school.js:133-154 | the subject list and the notice are those of AfterAdd |
| School.Dashboard.EditSubject | school.js:175-191 | the subject list and the notice are those of AfterEdit |
| School.Dashboard.DeleteSubject | school.js:193-200 | the subject list and the notice are those of AfterDelete |
| School.Dashboard.GenerateUniqueStudentCode | school.js:208-214 | the code returned is no student's code, and it is the first draw that is free. None means every draw was taken |
| School.Dashboard.OpenGradesModal | school.js:319-338 | the id is picked even when unknown. The picked student's grades become the filled map. Its attendance and every other student stay as they were |
| School.Dashboard.OpenAttendanceModal | school.js:509-512 | the id is picked even when unknown, and no student changes |
| School.Dashboard.UpdateGrade | school.js:461-501 | the picked student's grades get the one cell set, and nothing else changes, its attendance included. The save's answer decides only the notice: an error answer shows the grades notice when its body is JSON and the connection notice when it is not. An unknown student changes nothing |
| School.Dashboard.AddDailyAttendance | school.js:521-567 | a missing date is refused first and changes nothing, then a logged date, which changes nothing either. Otherwise the date gets every listed subject present, the other dates and the grades stay, and the save's answer decides the notice |
| School.Dashboard.SetAttendanceStatus | school.js:612-646 | the picked student's log gets exactly that day and subject set to the status, creating the day when missing. Its grades and every other student stay as they were |
| School.Dashboard.RemoveDayAttendance | school.js:648-659 | without confirmation nothing changes. Once confirmed, the date is removed from the picked student's log and nothing else changes, its grades included |
| Portal.GradeText | student.js:129-135 | the appraisal is excellent from 90, very good from 80, good from 70, acceptable from 60, and failing below 60 |
| Portal.GradeClass | student.js:138-143 | the class is excellent from 90, good from 80, pass from 70, and fail below 70 |
| Portal.BandsMonotone | student.js:129-143 | a higher score never gets a lower appraisal or a lower class |
| Portal.BandsDisagreeInSixties | student.js:129-143 | the two bandings agree exactly outside [60, 70), where the text says acceptable and the class says fail |
| Portal.ParseJSON | student.js:114-120 | a missing or empty text gives {}, a text that parses gives its value, and one that does not gives {} |
| Portal.Truthy | student.js:97 | a JSON value is falsy exactly when it is null, false, 0 or the empty string |
| Portal.Keys | student.js:92 | an object's keys, each once, are exactly the names of its members |
| Portal.Lookup | student.js:97 | `obj[k]` is the value of the last member named k, and exists exactly when some member is named k |
| Portal.IndexKeysDistinct | student.js:92 | the index keys of an array or string are all different |
| Portal.Entries | student.js:74 | `Object.entries` has distinct keys. For an object they are exactly its member names, each with its value. Null is a TypeError |
| Portal.Insert | student.js:92 | inserting a new key into a list ascending by key keeps it ascending and adds exactly that entry |
| Portal.SortByKey | student.js:92 | `sort()` on distinct keys gives an ascending rearrangement of the same entries |
| Portal.Reverse | student.js:92 | `reverse()` lists the same elements back to front |
| Portal.NewestFirst | student.js:92 | the sorted and reversed keys are strictly descending. Each comes with the object's value, and all the object's keys are there |
| Portal.AttendanceLines | student.js:86-105 | one line per key of the log, strictly descending in string order. A line shows present exactly when its value is truthy. A null log is a TypeError |
| Portal.IsoDateOrder | student.js:92 | for YYYY-MM-DD dates, string order is calendar order |
| Portal.AttendanceNewestFirst | student.js:92-102 | with ISO dates, every line of the attendance list has an earlier date than the line before it |
| Database.SchoolCode | database.js:84-88 | a school code starts with "SCH-" and splits back into its clock and random parts |
| Database.CountUnique | database.js:21 | under the UNIQUE constraint, a username is on exactly one row when it is on any |
| Database.InsertUser | database.js:21 | an insert is refused exactly when the username exists. Otherwise it appends the row and keeps usernames unique |
| Database.SeedAdmin | database.js:63-74 | the table is unchanged when the admin is there; otherwise the admin row is appended. Either way, unique usernames stay unique with exactly one admin, even when the lookup fails |
| Database.SeedIdempotent | database.js:63-74 | seeding again, with any hash, changes nothing |
| Database.Connection.CreateTables | database.js:63-74 | the users become the seeded table, and the next id advances by the rows added |
| Database.Connection.PickSchoolCode | database.js:99-113 | the code is not in the schools table, and it is the first free draw after taken ones. A failed lookup ends the search with the error after taken ones. Giving up means every round was taken |
| Database.Store.InitDB | database.js:5-15 | a fresh connection is opened on the disk's contents. Its users are the disk's users with the admin seeded, its next id has advanced by the rows added, and its school codes are the disk's |
| Database.Store.GetDB | database.js:78-81 | the first call opens a fresh connection holding what `InitDB` states; later calls return the same one |
| Database.Store.GenerateUniqueSchoolCode | database.js:91-114 | the connection is opened as `InitDB` states when unset, and kept otherwise. A unique code is the first free draw and is not in the schools table. A failed lookup is the first round whose lookup fails after taken ones. Giving up means every round was taken |

## Left out

- The DOM, `localStorage`, `fetch`, notifications and rendering to HTML are left out. A save to the server is reduced to its answer (`Save`), which only chooses the notice. An error answer records whether its body is JSON; which answer the server gives to each request is decided in `server.js`, which is not part of this model. `async` ordering and `setTimeout` are left out too.
- Numbers are integers (the grades side) or reals (portal scores). NaN, infinities and `-0` are left out, apart from the NaN that `|| 0` turns into 0.
- `toFixed(1)` rounding of the averages is left out. `Grades.Averaged` states the exact quotients.
- `Text.ParseInt` reads any length of digits exactly. JavaScript's double precision for very long numbers is left out.
- `Text.ToUpper`: it upper-cases ASCII letters only. Only base-36 text reaches it.
- `Text.Less` compares characters as code points; JavaScript compares UTF-16 code units. The two differ only for characters outside the Basic Multilingual Plane.
- The retry loops of the two code generators never stop in the source. The model gives them a finite sequence of draws, and running out of draws is the `None` / `GaveUp` outcome.
- `Codes.MakeCode`: the random chunk has *at most* three characters, not three as the source's comment says. `Codes.ShortRandomChunk` shows a one-character chunk.
- A student whose `grades` or `attendance` is missing is modelled with empty maps. The source throws a TypeError in three places that the model does not capture:
  - `delete student.attendance[date]` on a missing log (school.js:656);
  - `student.grades[subject]` in `openGradesModal` on missing grades (school.js:328);
  - `student.grades[subject]` in `renderGradesTable` on missing grades (school.js:364).
- A stored grade cell is an integer, a text or `Other`, and `Other` reads as 0. The server stores any JSON, and some values read differently in the source without being representable here: a fractional number reads as its integer part (`parseInt(85.5)` is 85), and an array such as `[70]` reads as its first element's text. Only null, booleans and plain objects read as 0 as `Other` does.
- `School.Dashboard.EditSubject`: requires the index to be within the list, as the buttons that call it always pass. An index past the end would make `subjects[index] = …` grow a sparse array, which is not modelled.
- `School.AfterEdit`: requires the index to be within the list, for the same reason.
- The server's routes and its own student-code format are not part of this model (`server.js` is context only). The same holds for `admin.js` and `main.js`.
- `displayScores` (student.js:68-83) only renders, so it is not a separate member. Its appraisal and class come from `Portal.GradeText` and `Portal.GradeClass`, and its rows from `Portal.Entries`. A score read from JSON is taken to be a number.
- Subject names and dates are ordinary map keys. In the source they index plain objects, so a name that is a member of `Object.prototype` (`constructor`, `toString`, `__proto__`, …) reaches the inherited member instead: `openGradesModal` then creates no record, `updateGrade` writes onto the shared inherited function, and a `__proto__` day leaves that subject out. The model does not capture this.
- `Object.keys` lists integer-like keys first; the model does not capture this order. The sort that follows makes it irrelevant.
- For an array or string log, `Portal.AttendanceLines` states the descending order but not which value each line reads. For a number or boolean log it gives an empty list.
- `JSON.parse` is a parameter. Its only stated property is that it reads "{}" as the empty object.
- Opening `school.db` is modelled as always succeeding. An open that fails, which leaves `db` set but unusable, is left out.
- `CREATE TABLE IF NOT EXISTS` and the `ALTER TABLE` column additions are left out: the tables are taken to exist. The `schools` table is reduced to its `code` column.
- bcrypt hashing is left out: the hash is a parameter.
