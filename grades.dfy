/**
 * The academic-record rules of the school dashboard: the six grading periods, how a
 * stored cell reads as an integer, the subject's latest non-zero grade, its
 * pass/fail/pending result, and the per-period totals and averages of the grades table.
 */
module Grades {
  import opened Wrappers
  import Text

  datatype Period = Month1 | Month2 | Midterm | Month3 | Month4 | Final {
    /** The key under which the period is stored in a subject's record. */
    function Key(): string {
      match this
      case Month1 => "month1"
      case Month2 => "month2"
      case Midterm => "midterm"
      case Month3 => "month3"
      case Month4 => "month4"
      case Final => "final"
    }
  }

  /** The periods in the order the latest grade is looked for: newest first. */
  const ScanOrder: seq<Period> := [Final, Month4, Month3, Midterm, Month2, Month1]

  /** The periods in the order of the totals record (and of the table's columns). */
  const TableOrder: seq<Period> := [Month1, Month2, Midterm, Month3, Month4, Final]

  /**
   * A value stored for one period: an integer, a text (what a form field holds), or
   * anything else (null, a boolean, an object), which parseInt reads as NaN.
   */
  datatype Cell = Int(n: int) | Str(s: string) | Other

  /**
   * parseInt(cell) || 0. A number reads as itself (CellValueOfNumber: parseInt of
   * its decimal text), a string as parseInt of the string, and the values a cell
   * cannot hold here (null, booleans, objects) as NaN, hence 0.
   */
  function CellValue(c: Cell): (v: int)
    ensures c.Int? ==> v == c.n
    ensures c.Str? ==> v == Text.ParseIntOrZero(c.s)
    ensures c.Other? ==> v == 0
  {
    match c
    case Int(n) => n
    case Str(s) => Text.ParseIntOrZero(s)
    case Other => 0
  }

  /** parseInt reads its argument's text: a number is read back from its decimal form. */
  lemma CellValueOfNumber(n: int)
    ensures CellValue(Int(n)) == Text.ParseIntOrZero(Text.IntToString(n))
  {
    Text.ParseIntOfIntToString(n, []);
    assert Text.IntToString(n) + [] == Text.IntToString(n);
  }

  /** One subject's record: the periods it has values for. */
  type Entry = map<Period, Cell>

  /** The record a subject gets when it has none: every period 0. */
  const ZeroEntry: Entry := map[Month1 := Int(0), Month2 := Int(0), Midterm := Int(0),
                                Month3 := Int(0), Month4 := Int(0), Final := Int(0)]

  /** parseInt(entry[period]) || 0: a missing period counts as 0. */
  function PeriodValue(e: Entry, p: Period): int {
    if p in e then CellValue(e[p]) else 0
  }

  lemma ZeroEntryIsZero(p: Period)
    ensures PeriodValue(ZeroEntry, p) == 0
  {
  }

  // ---------------------------------------------------------------------------
  // Latest grade and result
  // ---------------------------------------------------------------------------

  /** { grade, period }; a period of None is the 'none' of a subject with no positive grade. */
  datatype Latest = Latest(grade: int, period: Option<Period>)

  /** The first period of `order` whose value is positive, with that value. */
  function LatestIn(e: Entry, order: seq<Period>): Latest {
    if order == [] then Latest(0, None)
    else if PeriodValue(e, order[0]) > 0 then Latest(PeriodValue(e, order[0]), Some(order[0]))
    else LatestIn(e, order[1..])
  }

  /** getLatestGrade */
  function LatestGrade(e: Entry): Latest {
    LatestIn(e, ScanOrderSeq())
  }

  /** The scan order behind a call, so that a use of LatestGrade does not unroll LatestIn over a literal. */
  function ScanOrderSeq(): seq<Period> { ScanOrder }

  /** Position k of the scan order holds the first positive value. */
  predicate FirstPositive(e: Entry, order: seq<Period>, k: int) {
    && 0 <= k < |order|
    && PeriodValue(e, order[k]) > 0
    && forall j :: 0 <= j < k ==> PeriodValue(e, order[j]) <= 0
  }

  lemma {:induction false} LatestInCharacterized(e: Entry, order: seq<Period>)
    ensures var r := LatestIn(e, order);
      && (r.period.None? <==> forall j :: 0 <= j < |order| ==> PeriodValue(e, order[j]) <= 0)
      && (r.period.None? ==> r.grade == 0)
      && (r.period.Some? ==> exists k :: FirstPositive(e, order, k) && order[k] == r.period.value && r.grade == PeriodValue(e, order[k]))
    decreases |order|
  {
    if order != [] && PeriodValue(e, order[0]) <= 0 {
      LatestInCharacterized(e, order[1..]);
      var r := LatestIn(e, order[1..]);
      if r.period.Some? {
        var k :| FirstPositive(e, order[1..], k) && order[1..][k] == r.period.value && r.grade == PeriodValue(e, order[1..][k]);
        assert FirstPositive(e, order, k + 1);
      }
      assert (forall j :: 0 <= j < |order[1..]| ==> PeriodValue(e, order[1..][j]) <= 0)
          ==> forall j :: 0 <= j < |order| ==> PeriodValue(e, order[j]) <= 0 by {
        if forall j :: 0 <= j < |order[1..]| ==> PeriodValue(e, order[1..][j]) <= 0 {
          forall j | 0 <= j < |order| ensures PeriodValue(e, order[j]) <= 0 {
            if j > 0 {
              assert order[j] == order[1..][j - 1];
            }
          }
        }
      }
    } else if order != [] {
      assert FirstPositive(e, order, 0);
    }
  }

  /**
   * getLatestGrade: final, month4, month3, midterm, month2, month1 are looked at in that
   * order and the first with a positive value is returned with that value; with none,
   * the result is grade 0 and period 'none'.
   */
  method GetLatestGrade(e: Entry) returns (r: Latest)
    ensures r.period.None? <==> forall j :: 0 <= j < |ScanOrder| ==> PeriodValue(e, ScanOrder[j]) <= 0
    ensures r.period.None? ==> r.grade == 0
    ensures forall k :: 0 <= k < |ScanOrder| && r.period == Some(ScanOrder[k]) ==>
      FirstPositive(e, ScanOrder, k) && r.grade == PeriodValue(e, ScanOrder[k])
    ensures r == LatestGrade(e)
  {
    var periods := ScanOrder;
    for i := 0 to |periods|
      invariant forall j :: 0 <= j < i ==> PeriodValue(e, periods[j]) <= 0
      invariant LatestIn(e, periods[i..]) == LatestGrade(e)
    {
      assert periods[i..][1..] == periods[i + 1..];
      var grade := PeriodValue(e, periods[i]);
      if grade > 0 {
        assert FirstPositive(e, periods, i);
        return Latest(grade, Some(periods[i]));
      }
    }
    return Latest(0, None);
  }

  datatype Result = Pending | Pass | Fail {
    /** The status name the table uses for styling. */
    function Status(): string {
      match this
      case Pending => "pending"
      case Pass => "pass"
      case Fail => "fail"
    }

    /** The text the table shows. */
    function Label(): string {
      match this
      case Pending => "معلق"
      case Pass => "ناجح"
      case Fail => "راسب"
    }
  }

  const PassThreshold: int := 50

  /** getGradeResult: pending for grade 0, pass from 50 up, fail otherwise. */
  function GradeResult(l: Latest): (r: Result)
    ensures r == Pending <==> l.grade == 0
    ensures r == Pass <==> l.grade >= PassThreshold
    ensures r == Fail <==> l.grade != 0 && l.grade < PassThreshold
  {
    if l.grade == 0 then Pending else if l.grade >= PassThreshold then Pass else Fail
  }

  /**
   * The result the table shows for a subject: pending exactly when no period has a
   * positive value, otherwise decided by the value of the newest period that has one.
   */
  lemma SubjectResult(e: Entry)
    ensures GradeResult(LatestGrade(e)) == Pending <==> forall p :: PeriodValue(e, p) <= 0
    ensures forall k :: FirstPositive(e, ScanOrder, k) ==>
      (GradeResult(LatestGrade(e)) == Pass <==> PeriodValue(e, ScanOrder[k]) >= PassThreshold)
  {
    LatestInCharacterized(e, ScanOrder);
    var r := LatestGrade(e);
    assert (forall j :: 0 <= j < |ScanOrder| ==> PeriodValue(e, ScanOrder[j]) <= 0)
       <==> (forall p :: PeriodValue(e, p) <= 0) by {
      if forall j :: 0 <= j < |ScanOrder| ==> PeriodValue(e, ScanOrder[j]) <= 0 {
        forall p ensures PeriodValue(e, p) <= 0 {
          assert ScanOrder[ScanIndex(p)] == p;
        }
      }
    }
    forall k | FirstPositive(e, ScanOrder, k)
      ensures r.period == Some(ScanOrder[k]) && r.grade == PeriodValue(e, ScanOrder[k])
    {
      var k' :| FirstPositive(e, ScanOrder, k') && ScanOrder[k'] == r.period.value && r.grade == PeriodValue(e, ScanOrder[k']);
      FirstPositiveUnique(e, ScanOrder, k, k');
    }
  }

  lemma FirstPositiveUnique(e: Entry, order: seq<Period>, k: int, k': int)
    requires FirstPositive(e, order, k) && FirstPositive(e, order, k')
    ensures k == k'
  {
  }

  /** Where a period stands in the scan order. */
  function ScanIndex(p: Period): (k: nat)
    ensures k < |ScanOrder| && ScanOrder[k] == p
  {
    match p
    case Final => 0
    case Month4 => 1
    case Month3 => 2
    case Midterm => 3
    case Month2 => 4
    case Month1 => 5
  }

  /** Where a period stands in the totals record. */
  function TableIndex(p: Period): (k: nat)
    ensures k < |TableOrder| && TableOrder[k] == p
  {
    match p
    case Month1 => 0
    case Month2 => 1
    case Midterm => 2
    case Month3 => 3
    case Month4 => 4
    case Final => 5
  }

  // ---------------------------------------------------------------------------
  // Totals and averages
  // ---------------------------------------------------------------------------

  /** student.grades[subject] || the all-zero record */
  function EntryOf(grades: map<string, Entry>, subject: string): Entry {
    if subject in grades then grades[subject] else ZeroEntry
  }

  /** What a subject adds to a period's total. */
  function Contribution(grades: map<string, Entry>, subject: string, p: Period): int {
    PeriodValue(EntryOf(grades, subject), p)
  }

  /** The total of period p over the listed subjects, in list order. */
  function PeriodTotal(subjects: seq<string>, grades: map<string, Entry>, p: Period): int {
    if subjects == [] then 0
    else PeriodTotal(subjects[..|subjects| - 1], grades, p) + Contribution(grades, subjects[|subjects| - 1], p)
  }

  /** A totals record holds every period. */
  predicate Complete(totals: map<Period, int>) {
    forall p :: p in totals
  }

  /** The totals record before any subject is counted. */
  const ZeroTotals: map<Period, int> := map[Month1 := 0, Month2 := 0, Midterm := 0, Month3 := 0, Month4 := 0, Final := 0]

  lemma ZeroTotalsComplete()
    ensures Complete(ZeroTotals) && forall p :: ZeroTotals[p] == 0
  {
    forall p ensures p in ZeroTotals && ZeroTotals[p] == 0 {
      assert TableOrder[TableIndex(p)] == p;
    }
  }

  /** Object.keys(totals).forEach(period => totals[period] += parseInt(grades[period]) || 0) */
  method AddToTotals(totals: map<Period, int>, e: Entry) returns (updated: map<Period, int>)
    requires Complete(totals)
    ensures Complete(updated) && forall p :: updated[p] == totals[p] + PeriodValue(e, p)
  {
    updated := totals;
    var periods := TableOrder;
    for k := 0 to |periods|
      invariant Complete(updated)
      invariant forall j :: 0 <= j < k ==> updated[periods[j]] == totals[periods[j]] + PeriodValue(e, periods[j])
      invariant forall j :: k <= j < |periods| ==> updated[periods[j]] == totals[periods[j]]
    {
      var p := periods[k];
      updated := updated[p := updated[p] + PeriodValue(e, p)];
    }
    forall p ensures updated[p] == totals[p] + PeriodValue(e, p) {
      assert periods[TableIndex(p)] == p;
    }
  }

  /** One line of the grades table. */
  datatype Row = Row(subject: string, entry: Entry, latest: Latest, result: Result)

  function RowFor(grades: map<string, Entry>, subject: string): Row {
    var e := EntryOf(grades, subject);
    Row(subject, e, LatestGrade(e), GradeResult(LatestGrade(e)))
  }

  /** The row of one subject: its record (all zeros when missing), latest grade and result. */
  method BuildRow(grades: map<string, Entry>, subject: string) returns (row: Row)
    ensures row == RowFor(grades, subject)
  {
    var e := EntryOf(grades, subject);
    var latest := GetLatestGrade(e);
    row := Row(subject, e, latest, GradeResult(latest));
  }

  /**
   * renderGradesTable: one row per listed subject (its record, or all zeros when it has
   * none, with its latest grade and result) and, for each period, the total over the
   * listed subjects.
   */
  method GradesTable(subjects: seq<string>, grades: map<string, Entry>) returns (rows: seq<Row>, totals: map<Period, int>)
    ensures |rows| == |subjects|
    ensures forall i :: 0 <= i < |rows| ==> rows[i] == RowFor(grades, subjects[i])
    ensures Complete(totals) && forall p :: totals[p] == PeriodTotal(subjects, grades, p)
  {
    totals := ZeroTotals;
    ZeroTotalsComplete();
    rows := [];
    for i := 0 to |subjects|
      invariant |rows| == i && forall j :: 0 <= j < i ==> rows[j] == RowFor(grades, subjects[j])
      invariant TotalsOf(totals, subjects[..i], grades)
    {
      var e := EntryOf(grades, subjects[i]);
      totals := AddToTotals(totals, e);
      TotalsStep(totals, subjects, grades, i);
      var row := BuildRow(grades, subjects[i]);
      rows := rows + [row];
    }
    assert subjects[..|subjects|] == subjects;
  }

  /** The totals record holds, for every period, its total over the subjects. */
  predicate TotalsOf(totals: map<Period, int>, subjects: seq<string>, grades: map<string, Entry>) {
    Complete(totals) && forall p :: totals[p] == PeriodTotal(subjects, grades, p)
  }

  lemma TotalsStep(totals: map<Period, int>, subjects: seq<string>, grades: map<string, Entry>, i: nat)
    requires i < |subjects| && Complete(totals)
    requires forall p :: totals[p] == PeriodTotal(subjects[..i], grades, p) + Contribution(grades, subjects[i], p)
    ensures TotalsOf(totals, subjects[..i + 1], grades)
  {
    forall p ensures totals[p] == PeriodTotal(subjects[..i + 1], grades, p) {
      PeriodTotalStep(subjects, grades, i, p);
    }
  }

  lemma PeriodTotalStep(subjects: seq<string>, grades: map<string, Entry>, i: nat, p: Period)
    requires i < |subjects|
    ensures PeriodTotal(subjects[..i + 1], grades, p) == PeriodTotal(subjects[..i], grades, p) + Contribution(grades, subjects[i], p)
  {
    assert subjects[..i + 1][..i] == subjects[..i];
  }

  /** The sum of the six totals (Object.values(totals).reduce). */
  function GrandTotal(totals: map<Period, int>): int
    requires Complete(totals)
  {
    totals[Month1] + totals[Month2] + totals[Midterm] + totals[Month3] + totals[Month4] + totals[Final]
  }

  datatype Averages = Averages(perPeriod: map<Period, real>, overall: real)

  /**
   * updateTotalsAndAverages: the totals are shown as they are; averages exist only when
   * there is at least one subject, each period's total divided by the subject count and
   * the overall average the sum of all totals divided by six times the subject count.
   */
  function Averaged(totals: map<Period, int>, subjectCount: nat): (r: Option<Averages>)
    requires Complete(totals)
    ensures r.Some? <==> subjectCount > 0
    ensures r.Some? ==> forall p :: p in r.value.perPeriod && r.value.perPeriod[p] * subjectCount as real == totals[p] as real
    ensures r.Some? ==> r.value.overall * (6 * subjectCount) as real == GrandTotal(totals) as real
  {
    if subjectCount == 0 then None
    else
      var n := subjectCount as real;
      Some(Averages(map p: Period :: totals[p] as real / n, GrandTotal(totals) as real / (6.0 * n)))
  }

  /** The overall average is the mean of the six period averages. */
  lemma OverallIsMeanOfPeriods(totals: map<Period, int>, subjectCount: nat)
    requires Complete(totals) && subjectCount > 0
    ensures var a := Averaged(totals, subjectCount).value;
      a.overall == (a.perPeriod[Month1] + a.perPeriod[Month2] + a.perPeriod[Midterm]
                    + a.perPeriod[Month3] + a.perPeriod[Month4] + a.perPeriod[Final]) / 6.0
  {
    var a := Averaged(totals, subjectCount).value;
    var n := subjectCount as real;
    var s := a.perPeriod[Month1] + a.perPeriod[Month2] + a.perPeriod[Midterm]
             + a.perPeriod[Month3] + a.perPeriod[Month4] + a.perPeriod[Final];
    assert s * n == GrandTotal(totals) as real;
    assert a.overall * (6.0 * n) == s * n;
    assert a.overall * 6.0 == s;
  }

  /** Subjects that have records but are no longer listed add nothing to any total. */
  lemma {:induction false} TotalsIgnoreUnlisted(subjects: seq<string>, g1: map<string, Entry>, g2: map<string, Entry>, p: Period)
    requires forall i :: 0 <= i < |subjects| ==> EntryOf(g1, subjects[i]) == EntryOf(g2, subjects[i])
    ensures PeriodTotal(subjects, g1, p) == PeriodTotal(subjects, g2, p)
    decreases |subjects|
  {
    if subjects != [] {
      var init := subjects[..|subjects| - 1];
      assert forall i :: 0 <= i < |init| ==> init[i] == subjects[i];
      TotalsIgnoreUnlisted(init, g1, g2, p);
    }
  }

  /** Every listed period value lies between 0 and 100. */
  predicate InRange(subjects: seq<string>, grades: map<string, Entry>) {
    forall i, p :: 0 <= i < |subjects| ==> 0 <= Contribution(grades, subjects[i], p) <= 100
  }

  lemma {:induction false} TotalBounds(subjects: seq<string>, grades: map<string, Entry>, p: Period)
    requires InRange(subjects, grades)
    ensures 0 <= PeriodTotal(subjects, grades, p) <= 100 * |subjects|
    decreases |subjects|
  {
    if subjects != [] {
      var init := subjects[..|subjects| - 1];
      assert forall i :: 0 <= i < |init| ==> init[i] == subjects[i];
      TotalBounds(init, grades, p);
      assert 0 <= Contribution(grades, subjects[|subjects| - 1], p) <= 100;
    }
  }

  lemma QuotientBound(q: real, n: real, t: real)
    requires n > 0.0 && q * n == t && 0.0 <= t <= 100.0 * n
    ensures 0.0 <= q <= 100.0
  {
    assert q == t / n;
  }

  /** With every value between 0 and 100, so is every average. */
  lemma AveragesInRange(subjects: seq<string>, grades: map<string, Entry>, totals: map<Period, int>)
    requires InRange(subjects, grades) && |subjects| > 0
    requires Complete(totals) && forall p :: totals[p] == PeriodTotal(subjects, grades, p)
    ensures var a := Averaged(totals, |subjects|).value;
      (forall p :: 0.0 <= a.perPeriod[p] <= 100.0) && 0.0 <= a.overall <= 100.0
  {
    var n := |subjects|;
    var a := Averaged(totals, n).value;
    forall p ensures 0 <= totals[p] <= 100 * n {
      TotalBounds(subjects, grades, p);
    }
    forall p ensures 0.0 <= a.perPeriod[p] <= 100.0 {
      QuotientBound(a.perPeriod[p], n as real, totals[p] as real);
    }
    OverallIsMeanOfPeriods(totals, n);
  }

  /** The records of the two-subject example: A has 80 and B has 60 in the final, nothing else. */
  const ExampleGrades: map<string, Entry> := map["A" := ZeroEntry[Final := Int(80)], "B" := ZeroEntry[Final := Int(60)]]

  /**
   * With subjects A and B graded only in the final (80 and 60), the final total is 140,
   * every other total 0, the final average 70 and the overall average 140 / 12.
   */
  lemma TwoSubjectExample()
    ensures Complete(ZeroTotals[Final := 140]) && GrandTotal(ZeroTotals[Final := 140]) == 140
    ensures forall p :: PeriodTotal(["A", "B"], ExampleGrades, p) == ZeroTotals[Final := 140][p]
    ensures var a := Averaged(ZeroTotals[Final := 140], 2).value;
      a.perPeriod[Final] == 70.0 && a.overall == 140.0 / 12.0
  {
    var subjects := ["A", "B"];
    ZeroTotalsComplete();
    assert subjects[..1] == ["A"] && subjects[..1][..0] == [];
    forall p ensures PeriodTotal(subjects, ExampleGrades, p) == ZeroTotals[Final := 140][p] {
      assert PeriodTotal(subjects[..1][..0], ExampleGrades, p) == 0;
      assert PeriodTotal(subjects[..1], ExampleGrades, p) == Contribution(ExampleGrades, "A", p);
      assert PeriodTotal(subjects, ExampleGrades, p) == Contribution(ExampleGrades, "A", p) + Contribution(ExampleGrades, "B", p);
    }
  }
}
