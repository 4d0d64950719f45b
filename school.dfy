/**
 * The school dashboard's state and its in-place edits: the subject list, the
 * students with their grade records and attendance log, the student picked for the
 * grades or attendance window, and the student-code generator.
 *
 * What a save to the server answers, a confirmation dialog's answer and the text of
 * a prompt are parameters; the server itself is not modelled.
 */
module School {
  import opened Wrappers
  import Text
  import Codes
  import opened Grades

  // ---------------------------------------------------------------------------
  // Nested records
  // ---------------------------------------------------------------------------

  /**
   * m[k][l] = v, creating m[k] as {} when it is missing: exactly that one cell is
   * set, every other cell and every other key stays as it was.
   */
  function Put<K(==), L(==), V>(m: map<K, map<L, V>>, k: K, l: L, v: V): (r: map<K, map<L, V>>)
    ensures r.Keys == m.Keys + {k}
    ensures l in r[k] && r[k][l] == v
    ensures forall k' :: k' in m && k' != k ==> r[k'] == m[k']
    ensures r[k].Keys - {l} == (if k in m then m[k].Keys else {}) - {l}
    ensures k in m ==> forall l' :: l' in m[k] && l' != l ==> l' in r[k] && r[k][l'] == m[k][l']
  {
    var inner := if k in m then m[k] else map[];
    m[k := inner[l := v]]
  }

  /**
   * subjects.forEach(subject => { if (!grades[subject]) grades[subject] = all zeros }):
   * every listed subject gets a record, records that exist (listed or not) are kept,
   * and the new ones are all zeros.
   */
  function WithEntries(grades: map<string, Entry>, subjects: seq<string>): (r: map<string, Entry>)
    ensures forall s :: s in r <==> s in grades || s in subjects
    ensures forall s :: s in grades ==> r[s] == grades[s]
    ensures forall s :: s in r && s !in grades ==> r[s] == ZeroEntry
    decreases |subjects|
  {
    if subjects == [] then grades
    else
      var init, last := subjects[..|subjects| - 1], subjects[|subjects| - 1];
      assert forall s :: s in subjects <==> s in init || s == last by {
        assert subjects == init + [last];
      }
      var g := WithEntries(grades, init);
      if last in g then g else g[last := ZeroEntry]
  }

  /** Filling in the missing records changes nothing the grades table shows. */
  lemma FillKeepsTable(grades: map<string, Entry>, subjects: seq<string>)
    ensures var filled := WithEntries(grades, subjects);
      && (forall i :: 0 <= i < |subjects| ==> RowFor(filled, subjects[i]) == RowFor(grades, subjects[i]))
      && (forall p :: PeriodTotal(subjects, filled, p) == PeriodTotal(subjects, grades, p))
  {
    var filled := WithEntries(grades, subjects);
    assert forall i :: 0 <= i < |subjects| ==> EntryOf(filled, subjects[i]) == EntryOf(grades, subjects[i]);
    forall p ensures PeriodTotal(subjects, filled, p) == PeriodTotal(subjects, grades, p) {
      TotalsIgnoreUnlisted(subjects, filled, grades, p);
    }
  }

  /** Opening the grades window a second time adds nothing. */
  lemma FillIdempotent(grades: map<string, Entry>, subjects: seq<string>)
    ensures WithEntries(WithEntries(grades, subjects), subjects) == WithEntries(grades, subjects)
  {
  }

  /**
   * What one edit of a grade field stores: the value parseInt(value) || 0 under
   * subject and period, and every other period of every subject reads as before
   * (a subject that had no record reads 0 everywhere else either way).
   */
  lemma GradeEditEffect(grades: map<string, Entry>, subject: string, p: Period, value: string)
    ensures var g := Put(grades, subject, p, Int(Text.ParseIntOrZero(value)));
      && PeriodValue(EntryOf(g, subject), p) == Text.ParseIntOrZero(value)
      && (forall q :: q != p ==> PeriodValue(EntryOf(g, subject), q) == PeriodValue(EntryOf(grades, subject), q))
      && (forall s :: s != subject ==> EntryOf(g, s) == EntryOf(grades, s))
  {
    var g := Put(grades, subject, p, Int(Text.ParseIntOrZero(value)));
    forall q | q != p
      ensures PeriodValue(EntryOf(g, subject), q) == PeriodValue(EntryOf(grades, subject), q)
    {
      if subject !in grades {
        assert q !in g[subject];
        ZeroEntryIsZero(q);
      }
    }
  }

  /** A number typed into a grade field is stored as that number; a cleared field as 0. */
  lemma TypedGradeStored(n: int, blank: string)
    requires Text.AllSpace(blank)
    ensures Text.ParseIntOrZero(Text.IntToString(n)) == n
    ensures Text.ParseIntOrZero(blank) == 0
  {
    Text.ParseIntOfIntToString(n, []);
    assert Text.IntToString(n) + [] == Text.IntToString(n);
    Text.BlankParsesAsZero(blank);
  }

  // ---------------------------------------------------------------------------
  // Attendance
  // ---------------------------------------------------------------------------

  const Present: string := "حاضر"
  const Absent: string := "غائب"
  const OnLeave: string := "إجازة"

  /** One day of attendance: a status per subject. */
  type Day = map<string, string>

  /** A new day: every listed subject present, no other subject. */
  function PresentDay(subjects: seq<string>): (d: Day)
    ensures forall s :: s in d <==> s in subjects
    ensures forall s :: s in d ==> d[s] == Present
    decreases |subjects|
  {
    if subjects == [] then map[]
    else
      var init, last := subjects[..|subjects| - 1], subjects[|subjects| - 1];
      assert forall s :: s in subjects <==> s in init || s == last by {
        assert subjects == init + [last];
      }
      PresentDay(init)[last := Present]
  }

  lemma PresentDayStep(subjects: seq<string>, i: nat)
    requires i < |subjects|
    ensures PresentDay(subjects[..i + 1]) == PresentDay(subjects[..i])[subjects[i] := Present]
  {
    var done := subjects[..i + 1];
    assert done[..i] == subjects[..i] && done[i] == subjects[i];
  }

  // ---------------------------------------------------------------------------
  // Students
  // ---------------------------------------------------------------------------

  class Student {
    const id: int
    /** student_code */
    const code: string
    /** The subject records, keyed by subject name. */
    var grades: map<string, Entry>
    /** The attendance log, keyed by date. */
    var attendance: map<string, Day>

    constructor (id: int, code: string, grades: map<string, Entry>, attendance: map<string, Day>)
      ensures this.id == id && this.code == code
      ensures this.grades == grades && this.attendance == attendance
    {
      this.id := id;
      this.code := code;
      this.grades := grades;
      this.attendance := attendance;
    }

    /** The loop of openGradesModal that gives every listed subject a record. */
    method FillGrades(subjects: seq<string>)
      modifies this`grades
      ensures grades == WithEntries(old(grades), subjects)
    {
      for i := 0 to |subjects|
        invariant grades == WithEntries(old(grades), subjects[..i])
      {
        assert subjects[..i + 1][..i] == subjects[..i];
        if subjects[i] !in grades {
          grades := grades[subjects[i] := ZeroEntry];
        }
      }
      assert subjects[..|subjects|] == subjects;
    }

    /** attendance[date] = {} followed by one 'present' per listed subject. */
    method AddPresentDay(date: string, subjects: seq<string>)
      modifies this`attendance
      ensures attendance == old(attendance)[date := PresentDay(subjects)]
    {
      attendance := attendance[date := map[]];
      for i := 0 to |subjects|
        invariant attendance == old(attendance)[date := PresentDay(subjects[..i])]
      {
        PresentDayStep(subjects, i);
        var day := attendance[date];
        assert day == PresentDay(subjects[..i]);
        attendance := attendance[date := day[subjects[i] := Present]];
      }
      assert subjects[..|subjects|] == subjects;
    }
  }

  /** students.find(s => s.id === id): the position of the first student with that id. */
  function Find(students: seq<Student>, id: Option<int>): (r: Option<nat>)
    ensures r.Some? ==> r.value < |students| && id == Some(students[r.value].id)
    ensures r.Some? ==> forall j :: 0 <= j < r.value ==> id != Some(students[j].id)
    ensures r.None? <==> forall j :: 0 <= j < |students| ==> id != Some(students[j].id)
    decreases |students|
  {
    if students == [] then None
    else if id == Some(students[0].id) then Some(0)
    else
      match Find(students[1..], id)
      case None => None
      case Some(k) => Some(k + 1)
  }

  /** The student find() picks, as a set: what an edit of the picked student may change. */
  function Found(students: seq<Student>, id: Option<int>): set<Student> {
    match Find(students, id)
    case None => {}
    case Some(k) => {students[k]}
  }

  /** students.some(student => student.student_code === code) */
  predicate CodeTaken(students: seq<Student>, code: string): (r: bool)
    ensures r <==> exists j :: 0 <= j < |students| && students[j].code == code
    decreases |students|
  {
    if students == [] then false
    else students[0].code == code || CodeTaken(students[1..], code)
  }

  /** The codes of the first n draws are all taken. */
  predicate AllTaken(students: seq<Student>, draws: seq<Codes.Draw>, n: nat) {
    n <= |draws| && forall j :: 0 <= j < n ==> CodeTaken(students, StudentCode(draws[j]))
  }

  /** Draw i is the first whose code is free. */
  predicate FirstFree(students: seq<Student>, draws: seq<Codes.Draw>, i: int) {
    0 <= i < |draws| && AllTaken(students, draws, i) && !CodeTaken(students, StudentCode(draws[i]))
  }

  lemma TakenStep(students: seq<Student>, draws: seq<Codes.Draw>, i: nat)
    requires AllTaken(students, draws, i) && i < |draws| && CodeTaken(students, StudentCode(draws[i]))
    ensures AllTaken(students, draws, i + 1)
  {
  }

  /** generateStudentCode: "STD-" + the clock's last six digits + "-" + the random chunk. */
  function StudentCode(d: Codes.Draw): (code: string)
    ensures |code| >= 4 && code[..4] == "STD-"
    ensures Codes.Split("STD", code) == Some((Codes.ClockPart(d.now), Codes.RandomPart(d.random)))
  {
    Codes.MakeCode("STD", d.now, d.random)
  }

  // ---------------------------------------------------------------------------
  // The subject list
  // ---------------------------------------------------------------------------

  /** The notifications the dashboard shows. */
  datatype Notice =
    | NoNotice
    | NameRequired | SubjectExists | SubjectAdded
    | NameExists | SubjectEdited | SubjectDeleted
    | DateRequired | DayExists | DayAdded | DayRemoved
    | GradesNotSaved | AttendanceNotSaved | ConnectionFailed
  {
    function Message(): string {
      match this
      case NoNotice => ""
      case NameRequired => "يرجى إدخال اسم المادة"
      case SubjectExists => "هذه المادة موجودة بالفعل"
      case SubjectAdded => "تم إضافة المادة بنجاح"
      case NameExists => "هذا الاسم موجود بالفعل"
      case SubjectEdited => "تم تعديل المادة بنجاح"
      case SubjectDeleted => "تم حذف المادة بنجاح"
      case DateRequired => "يرجى اختيار التاريخ"
      case DayExists => "حضور هذا اليوم موجود بالفعل"
      case DayAdded => "تم إضافة يوم جديد"
      case DayRemoved => "تم حذف حضور اليوم"
      case GradesNotSaved => "حدث خطأ في حفظ الدرجات"
      case AttendanceNotSaved => "حدث خطأ في حفظ بيانات الحضور"
      case ConnectionFailed => "حدث خطأ في الاتصال بالخادم"
    }
  }

  /**
   * How a save to the server ended: accepted, answered with an error status (whose
   * body is JSON or not), or not reached. The grade edit reads the error body as
   * JSON, so an error answer that is not JSON ends in its catch; the attendance
   * edits never read the body.
   */
  datatype Save = Saved | Rejected(jsonBody: bool) | Unreachable

  predicate Distinct(subjects: seq<string>) {
    forall i, j :: 0 <= i < j < |subjects| ==> subjects[i] != subjects[j]
  }

  /** A subject list after an edit, with the notice shown. */
  datatype SubjectEdit = SubjectEdit(subjects: seq<string>, notice: Notice)

  /**
   * addSubject: a blank name is refused, a name (once trimmed) already listed is
   * refused, any other is appended trimmed; a list without duplicates keeps none.
   */
  function AfterAdd(subjects: seq<string>, input: string): (r: SubjectEdit)
    ensures r.notice == NameRequired <==> Text.AllSpace(input)
    ensures r.notice == SubjectExists <==> !Text.AllSpace(input) && Text.Trim(input) in subjects
    ensures r.notice == SubjectAdded <==> !Text.AllSpace(input) && Text.Trim(input) !in subjects
    ensures r.notice == SubjectAdded ==> r.subjects == subjects + [Text.Trim(input)]
    ensures r.notice != SubjectAdded ==> r.subjects == subjects
    ensures Distinct(subjects) ==> Distinct(r.subjects)
  {
    var name := Text.Trim(input);
    if name == [] then SubjectEdit(subjects, NameRequired)
    else if name in subjects then SubjectEdit(subjects, SubjectExists)
    else SubjectEdit(subjects + [name], SubjectAdded)
  }

  /**
   * editSubject: the prompt's answer, trimmed, replaces the name at index when it is
   * not blank and is not listed anywhere (the old name included); a cancelled prompt,
   * a blank answer or the unchanged name do nothing; a name listed elsewhere is refused.
   */
  function AfterEdit(subjects: seq<string>, index: nat, reply: Option<string>): (r: SubjectEdit)
    requires index < |subjects|
    ensures r.notice == SubjectEdited <==> reply.Some? && !Text.AllSpace(reply.value) && Text.Trim(reply.value) !in subjects
    ensures r.notice == NameExists <==>
      reply.Some? && !Text.AllSpace(reply.value) && Text.Trim(reply.value) != subjects[index] && Text.Trim(reply.value) in subjects
    ensures |r.subjects| == |subjects| && forall j :: 0 <= j < |subjects| && j != index ==> r.subjects[j] == subjects[j]
    ensures r.notice == SubjectEdited ==> r.subjects[index] == Text.Trim(reply.value)
    ensures r.notice in {SubjectEdited, NameExists, NoNotice}
    ensures r.notice != SubjectEdited ==> r.subjects == subjects
    ensures Distinct(subjects) ==> Distinct(r.subjects)
  {
    if reply.Some? && Text.Trim(reply.value) != [] && Text.Trim(reply.value) != subjects[index] then
      var name := Text.Trim(reply.value);
      if name in subjects then SubjectEdit(subjects, NameExists)
      else SubjectEdit(subjects[index := name], SubjectEdited)
    else
      SubjectEdit(subjects, NoNotice)
  }

  /**
   * deleteSubject: once confirmed, splice(index, 1) takes out the name at index and
   * nothing else (an index past the end takes out nothing); without confirmation the
   * list stays.
   */
  function AfterDelete(subjects: seq<string>, index: nat, confirmed: bool): (r: SubjectEdit)
    ensures r.notice == SubjectDeleted <==> confirmed
    ensures r.notice != SubjectDeleted ==> r.notice == NoNotice
    ensures confirmed && index < |subjects| ==>
      && |r.subjects| == |subjects| - 1
      && (forall j :: 0 <= j < index ==> r.subjects[j] == subjects[j])
      && (forall j :: index <= j < |r.subjects| ==> r.subjects[j] == subjects[j + 1])
    ensures !(confirmed && index < |subjects|) ==> r.subjects == subjects
    ensures Distinct(subjects) ==> Distinct(r.subjects)
    ensures Distinct(subjects) && confirmed && index < |subjects| ==> subjects[index] !in r.subjects
  {
    if !confirmed then SubjectEdit(subjects, NoNotice)
    else if index < |subjects| then
      var rest := subjects[..index] + subjects[index + 1..];
      assert forall j :: 0 <= j < |rest| ==> rest[j] == subjects[if j < index then j else j + 1];
      SubjectEdit(rest, SubjectDeleted)
    else
      SubjectEdit(subjects, SubjectDeleted)
  }

  /** Deleting takes the one name out of the list as a multiset. */
  lemma DeleteRemovesOne(subjects: seq<string>, index: nat)
    requires index < |subjects|
    ensures multiset(AfterDelete(subjects, index, true).subjects) + multiset{subjects[index]} == multiset(subjects)
  {
    assert subjects == subjects[..index] + [subjects[index]] + subjects[index + 1..];
  }

  // ---------------------------------------------------------------------------
  // The dashboard
  // ---------------------------------------------------------------------------

  class Dashboard {
    /** The school's subject list, in display order. */
    var subjects: seq<string>
    /** The students loaded from the server. */
    var students: seq<Student>
    /** The student whose grades or attendance window was opened last (null at first). */
    var currentStudentId: Option<int>

    constructor (subjects: seq<string>, students: seq<Student>)
      ensures this.subjects == subjects && this.students == students && currentStudentId == None
    {
      this.subjects := subjects;
      this.students := students;
      currentStudentId := None;
    }

    method AddSubject(input: string) returns (notice: Notice)
      modifies this`subjects
      ensures subjects == AfterAdd(old(subjects), input).subjects
      ensures notice == AfterAdd(old(subjects), input).notice
    {
      var name := Text.Trim(input);
      if name == [] {
        return NameRequired;
      }
      if name in subjects {
        return SubjectExists;
      }
      subjects := subjects + [name];
      return SubjectAdded;
    }

    method EditSubject(index: nat, reply: Option<string>) returns (notice: Notice)
      requires index < |subjects|
      modifies this`subjects
      ensures subjects == AfterEdit(old(subjects), index, reply).subjects
      ensures notice == AfterEdit(old(subjects), index, reply).notice
    {
      if reply.Some? && Text.Trim(reply.value) != [] && Text.Trim(reply.value) != subjects[index] {
        var name := Text.Trim(reply.value);
        if name in subjects {
          return NameExists;
        }
        subjects := subjects[index := name];
        return SubjectEdited;
      }
      return NoNotice;
    }

    method DeleteSubject(index: nat, confirmed: bool) returns (notice: Notice)
      modifies this`subjects
      ensures subjects == AfterDelete(old(subjects), index, confirmed).subjects
      ensures notice == AfterDelete(old(subjects), index, confirmed).notice
    {
      if !confirmed {
        return NoNotice;
      }
      if index < |subjects| {
        subjects := subjects[..index] + subjects[index + 1..];
      }
      return SubjectDeleted;
    }

    /**
     * generateUniqueStudentCode: draws codes until one is not any student's code. The
     * draws are given; running out of them stands for the loop going on.
     */
    method GenerateUniqueStudentCode(draws: seq<Codes.Draw>) returns (code: Option<string>)
      ensures code.Some? ==> !CodeTaken(students, code.value)
      ensures code.Some? ==> exists i :: FirstFree(students, draws, i) && code.value == StudentCode(draws[i])
      ensures code.None? <==> AllTaken(students, draws, |draws|)
    {
      for i := 0 to |draws|
        invariant AllTaken(students, draws, i)
      {
        var candidate := StudentCode(draws[i]);
        if !CodeTaken(students, candidate) {
          assert FirstFree(students, draws, i);
          return Some(candidate);
        }
        TakenStep(students, draws, i);
      }
      return None;
    }

    /**
     * openGradesModal: picks the student and gives each listed subject a record in
     * that student's grades; nothing happens to an unknown id beyond the pick.
     */
    method OpenGradesModal(studentId: int)
      modifies this`currentStudentId, Found(students, Some(studentId))`grades
      ensures currentStudentId == Some(studentId)
      ensures match Find(students, Some(studentId))
        case None => true
        case Some(k) => students[k].grades == WithEntries(old(students[k].grades), subjects)
    {
      currentStudentId := Some(studentId);
      var k := Find(students, currentStudentId);
      if k.Some? {
        students[k.value].FillGrades(subjects);
      }
    }

    /**
     * openAttendanceModal: picks the student for the attendance window and changes
     * nothing else, whether or not a student has that id.
     */
    method OpenAttendanceModal(studentId: int)
      modifies this`currentStudentId
      ensures currentStudentId == Some(studentId)
      ensures unchanged(students)
    {
      currentStudentId := Some(studentId);
    }

    /**
     * updateGrade: grades[subject][period] = parseInt(value) || 0 on the picked student,
     * creating the subject's record when missing; the save's answer only decides the
     * notice, and an error answer without a JSON body shows the connection notice.
     */
    method UpdateGrade(subject: string, period: Period, value: string, save: Save) returns (notice: Notice)
      modifies Found(students, currentStudentId)`grades
      ensures match Find(students, currentStudentId)
        case None => notice == NoNotice
        case Some(k) =>
          && students[k].grades == Put(old(students[k].grades), subject, period, Int(Text.ParseIntOrZero(value)))
          && notice == (match save case Saved => NoNotice case Rejected(json) => if json then GradesNotSaved else ConnectionFailed case Unreachable => ConnectionFailed)
    {
      var k := Find(students, currentStudentId);
      if k.None? {
        return NoNotice;
      }
      var student := students[k.value];
      student.grades := Put(student.grades, subject, period, Int(Text.ParseIntOrZero(value)));
      notice := match save case Saved => NoNotice case Rejected(json) => if json then GradesNotSaved else ConnectionFailed case Unreachable => ConnectionFailed;
    }

    /**
     * addDailyAttendance: a missing date is refused first; then, for the picked
     * student, a date already logged is refused and any other gets every listed
     * subject present, all other dates left as they were.
     */
    method AddDailyAttendance(date: string, save: Save) returns (notice: Notice)
      modifies Found(students, currentStudentId)`attendance
      ensures date == [] ==> notice == DateRequired && unchanged(Found(students, currentStudentId))
      ensures date != [] ==> match Find(students, currentStudentId)
        case None => notice == NoNotice
        case Some(k) =>
          if date in old(students[k].attendance) then
            notice == DayExists && students[k].attendance == old(students[k].attendance)
          else
            && students[k].attendance == old(students[k].attendance)[date := PresentDay(subjects)]
            && notice == (match save case Saved => DayAdded case Rejected(_) => AttendanceNotSaved case Unreachable => ConnectionFailed)
    {
      if date == [] {
        return DateRequired;
      }
      var k := Find(students, currentStudentId);
      if k.None? {
        return NoNotice;
      }
      var student := students[k.value];
      if date in student.attendance {
        return DayExists;
      }
      student.AddPresentDay(date, subjects);
      notice := match save case Saved => DayAdded case Rejected(_) => AttendanceNotSaved case Unreachable => ConnectionFailed;
    }

    /**
     * setAttendanceStatus: attendance[date][subject] = status on the picked student,
     * creating the day when missing.
     */
    method SetAttendanceStatus(date: string, subject: string, status: string, save: Save) returns (notice: Notice)
      modifies Found(students, currentStudentId)`attendance
      ensures match Find(students, currentStudentId)
        case None => notice == NoNotice
        case Some(k) =>
          && students[k].attendance == Put(old(students[k].attendance), date, subject, status)
          && notice == (match save case Saved => NoNotice case Rejected(_) => AttendanceNotSaved case Unreachable => ConnectionFailed)
    {
      var k := Find(students, currentStudentId);
      if k.None? {
        return NoNotice;
      }
      var student := students[k.value];
      student.attendance := Put(student.attendance, date, subject, status);
      notice := match save case Saved => NoNotice case Rejected(_) => AttendanceNotSaved case Unreachable => ConnectionFailed;
    }

    /** removeDayAttendance: once confirmed, deletes the date from the picked student's log. */
    method RemoveDayAttendance(date: string, confirmed: bool) returns (notice: Notice)
      modifies Found(students, currentStudentId)`attendance
      ensures !confirmed ==> unchanged(Found(students, currentStudentId))
      ensures !confirmed || Find(students, currentStudentId).None? ==> notice == NoNotice
      ensures confirmed ==> match Find(students, currentStudentId)
        case None => true
        case Some(k) => students[k].attendance == old(students[k].attendance) - {date} && notice == DayRemoved
    {
      if !confirmed {
        return NoNotice;
      }
      var k := Find(students, currentStudentId);
      if k.None? {
        return NoNotice;
      }
      var student := students[k.value];
      student.attendance := student.attendance - {date};
      return DayRemoved;
    }
  }
}
