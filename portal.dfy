/**
 * The student portal's display rules: the appraisal text and the style class of a
 * score, the forgiving JSON decode of the stored records, and the attendance list,
 * whose dates are sorted as strings and shown newest first.
 *
 * JSON.parse itself is a parameter: a function from text to a value, None standing
 * for a SyntaxError.
 */
module Portal {
  import opened Wrappers
  import Text

  // ---------------------------------------------------------------------------
  // Score bands
  // ---------------------------------------------------------------------------

  /** The appraisal getGradeText writes. */
  datatype Appraisal = Excellent | VeryGood | Good | Acceptable | Failing {
    function Label(): string {
      match this
      case Excellent => "ممتاز"
      case VeryGood => "جيد جداً"
      case Good => "جيد"
      case Acceptable => "مقبول"
      case Failing => "راسب"
    }

    /** Higher is better. */
    function Rank(): nat {
      match this
      case Failing => 0
      case Acceptable => 1
      case Good => 2
      case VeryGood => 3
      case Excellent => 4
    }

    /** The style class that goes with the appraisal: an acceptable score is a pass. */
    function Standing(): Standing {
      match this
      case Excellent => ExcellentClass
      case VeryGood => GoodClass
      case Good => PassClass
      case Acceptable => PassClass
      case Failing => FailClass
    }
  }

  /** The style class getGradeClass gives. */
  datatype Standing = ExcellentClass | GoodClass | PassClass | FailClass {
    function Name(): string {
      match this
      case ExcellentClass => "excellent"
      case GoodClass => "good"
      case PassClass => "pass"
      case FailClass => "fail"
    }

    function Rank(): nat {
      match this
      case FailClass => 0
      case PassClass => 1
      case GoodClass => 2
      case ExcellentClass => 3
    }
  }

  /** getGradeText: 90 and up excellent, 80 very good, 70 good, 60 acceptable, below 60 failing. */
  function GradeText(score: real): (a: Appraisal)
    ensures a == Excellent <==> 90.0 <= score
    ensures a == VeryGood <==> 80.0 <= score < 90.0
    ensures a == Good <==> 70.0 <= score < 80.0
    ensures a == Acceptable <==> 60.0 <= score < 70.0
    ensures a == Failing <==> score < 60.0
  {
    if score >= 90.0 then Excellent
    else if score >= 80.0 then VeryGood
    else if score >= 70.0 then Good
    else if score >= 60.0 then Acceptable
    else Failing
  }

  /** getGradeClass: 90 and up excellent, 80 good, 70 pass, below 70 fail. */
  function GradeClass(score: real): (c: Standing)
    ensures c == ExcellentClass <==> 90.0 <= score
    ensures c == GoodClass <==> 80.0 <= score < 90.0
    ensures c == PassClass <==> 70.0 <= score < 80.0
    ensures c == FailClass <==> score < 70.0
  {
    if score >= 90.0 then ExcellentClass
    else if score >= 80.0 then GoodClass
    else if score >= 70.0 then PassClass
    else FailClass
  }

  /** A higher score never gets a lower appraisal or a lower class. */
  lemma BandsMonotone(s1: real, s2: real)
    requires s1 <= s2
    ensures GradeText(s1).Rank() <= GradeText(s2).Rank()
    ensures GradeClass(s1).Rank() <= GradeClass(s2).Rank()
  {
  }

  /**
   * The two bandings agree everywhere except from 60 up to (not including) 70, where
   * the text says acceptable and the class says fail.
   */
  lemma BandsDisagreeInSixties(score: real)
    ensures GradeClass(score) == GradeText(score).Standing() <==> !(60.0 <= score < 70.0)
    ensures 60.0 <= score < 70.0 ==> GradeText(score) == Acceptable && GradeClass(score) == FailClass
  {
  }

  // ---------------------------------------------------------------------------
  // JSON values
  // ---------------------------------------------------------------------------

  /** A decoded JSON value; an object keeps its members in text order, duplicates included. */
  datatype Json =
    | JNull
    | JBool(b: bool)
    | JNumber(n: real)
    | JString(s: string)
    | JArray(items: seq<Json>)
    | JObject(members: seq<(string, Json)>)

  const EmptyObject: Json := JObject([])

  /**
   * parseJSON(str): JSON.parse(str || '{}'), with {} for text that does not parse.
   * A missing or empty text gives {}; otherwise the result is what the text decodes
   * to, or {} when it does not decode.
   */
  function ParseJSON(str: Option<string>, parse: string -> Option<Json>): (r: Json)
    requires parse("{}") == Some(EmptyObject)
    ensures str.None? || str == Some("") ==> r == EmptyObject
    ensures str.Some? && str.value != "" && parse(str.value).Some? ==> r == parse(str.value).value
    ensures str.Some? && parse(str.value).None? ==> r == EmptyObject
  {
    var text := if str.None? || str.value == "" then "{}" else str.value;
    match parse(text)
    case Some(v) => v
    case None => EmptyObject
  }

  /**
   * The truthiness of a value (numbers are never NaN here): null, false, 0 and the
   * empty string are the only falsy JSON values.
   */
  predicate Truthy(v: Json): (r: bool)
    ensures !r <==> v == JNull || v == JBool(false) || v == JNumber(0.0) || v == JString("")
  {
    match v
    case JNull => false
    case JBool(b) => b
    case JNumber(n) => n != 0.0
    case JString(s) => s != ""
    case JArray(_) => true
    case JObject(_) => true
  }

  /** Some member is named k. */
  predicate Has<V(==)>(members: seq<(string, V)>, k: string) {
    exists i :: 0 <= i < |members| && members[i].0 == k
  }

  /** The keys of a member list, each once, in order of first appearance. */
  function Keys<V(==)>(members: seq<(string, V)>): (ks: seq<string>)
    ensures forall i, j :: 0 <= i < j < |ks| ==> ks[i] != ks[j]
    ensures forall k :: k in ks <==> Has(members, k)
    decreases |members|
  {
    if members == [] then []
    else
      var init, last := members[..|members| - 1], members[|members| - 1];
      var ks := Keys(init);
      assert forall k :: Has(members, k) <==> Has(init, k) || k == last.0 by {
        assert forall i :: 0 <= i < |init| ==> init[i] == members[i];
        forall k | Has(members, k) ensures Has(init, k) || k == last.0 {
          var i :| 0 <= i < |members| && members[i].0 == k;
          if i < |init| {
            assert init[i].0 == k;
          }
        }
      }
      if last.0 in ks then ks else ks + [last.0]
  }

  /** obj[k] for a member list: the value of the last member named k (JSON.parse keeps the last). */
  function Lookup<V(==)>(members: seq<(string, V)>, k: string): (v: Option<V>)
    ensures v.Some? <==> Has(members, k)
    ensures v.Some? ==>
      exists i :: 0 <= i < |members| && members[i] == (k, v.value) && (forall j :: i < j < |members| ==> members[j].0 != k)
    decreases |members|
  {
    if members == [] then None
    else if members[|members| - 1].0 == k then Some(members[|members| - 1].1)
    else
      var init := members[..|members| - 1];
      assert forall i :: 0 <= i < |init| ==> init[i] == members[i];
      assert Has(members, k) ==> Has(init, k) by {
        if Has(members, k) {
          var i :| 0 <= i < |members| && members[i].0 == k;
          assert init[i].0 == k;
        }
      }
      Lookup(init, k)
  }

  /** NatToString is one-to-one, so index keys are distinct. */
  lemma IndexKeysDistinct(i: nat, j: nat)
    requires i != j
    ensures Text.NatToString(i) != Text.NatToString(j)
  {
    Text.NatToStringValue(i);
    Text.NatToStringValue(j);
  }

  /** Every entry holds the value its key has in the object. */
  predicate Agrees<V(==)>(es: seq<(string, V)>, members: seq<(string, V)>) {
    forall i :: 0 <= i < |es| ==> Lookup(members, es[i].0) == Some(es[i].1)
  }

  predicate DistinctKeys<V(==)>(es: seq<(string, V)>) {
    forall i, j :: 0 <= i < j < |es| ==> es[i].0 != es[j].0
  }

  /**
   * Object.entries(v), up to order: the members of an object (each key once, with its
   * last value), the index keys of an array or a string, nothing for a number or a
   * boolean, and a TypeError (None) for null.
   */
  function Entries(v: Json): (r: Option<seq<(string, Json)>>)
    ensures r.None? <==> v.JNull?
    ensures r.Some? ==> DistinctKeys(r.value)
    ensures v.JObject? ==> Agrees(r.value, v.members)
    ensures v.JObject? ==> forall k :: k in KeySet(r.value) <==> Has(v.members, k)
  {
    match v
    case JNull => None
    case JBool(_) => Some([])
    case JNumber(_) => Some([])
    case JString(s) =>
      var es := seq(|s|, i requires 0 <= i < |s| => (Text.NatToString(i), JString([s[i]])));
      assert DistinctKeys(es) by {
        forall i, j | 0 <= i < j < |es| ensures es[i].0 != es[j].0 {
          IndexKeysDistinct(i, j);
        }
      }
      Some(es)
    case JArray(items) =>
      var es := seq(|items|, i requires 0 <= i < |items| => (Text.NatToString(i), items[i]));
      assert DistinctKeys(es) by {
        forall i, j | 0 <= i < j < |es| ensures es[i].0 != es[j].0 {
          IndexKeysDistinct(i, j);
        }
      }
      Some(es)
    case JObject(members) =>
      var ks := Keys(members);
      assert forall i :: 0 <= i < |ks| ==> Has(members, ks[i]);
      var es := seq(|ks|, i requires 0 <= i < |ks| => (ks[i], Lookup(members, ks[i]).value));
      assert forall k :: k in KeySet(es) <==> k in ks by {
        forall k | k in ks ensures k in KeySet(es) {
          var i :| 0 <= i < |ks| && ks[i] == k;
          assert es[i].0 == k;
        }
      }
      Some(es)
  }

  // ---------------------------------------------------------------------------
  // Sorting by key
  // ---------------------------------------------------------------------------

  predicate Ascending<V(==)>(es: seq<(string, V)>) {
    forall i, j :: 0 <= i < j < |es| ==> Text.Less(es[i].0, es[j].0)
  }

  function KeySet<V(==)>(es: seq<(string, V)>): set<string> {
    set i | 0 <= i < |es| :: es[i].0
  }

  lemma KeySetCons<V>(x: (string, V), es: seq<(string, V)>)
    ensures KeySet([x] + es) == {x.0} + KeySet(es)
  {
    var r := [x] + es;
    assert r[0].0 == x.0;
    forall k | k in KeySet(r) ensures k in {x.0} + KeySet(es) {
      var i :| 0 <= i < |r| && r[i].0 == k;
      if i > 0 {
        assert r[i] == es[i - 1];
      }
    }
    forall k | k in KeySet(es) ensures k in KeySet(r) {
      var i :| 0 <= i < |es| && es[i].0 == k;
      assert r[i + 1] == es[i];
    }
  }

  /** Inserts an entry whose key is new into a list ascending by key. */
  function Insert<V(==)>(x: (string, V), es: seq<(string, V)>): (r: seq<(string, V)>)
    requires Ascending(es) && x.0 !in KeySet(es)
    ensures Ascending(r)
    ensures multiset(r) == multiset(es) + multiset{x}
    ensures KeySet(r) == KeySet(es) + {x.0}
    decreases |es|
  {
    if es == [] then [x]
    else if Text.Less(x.0, es[0].0) then
      InsertInFront(x, es);
      [x] + es
    else
      Text.LessTotal(x.0, es[0].0);
      var tail := es[1..];
      assert es == [es[0]] + tail;
      KeySetCons(es[0], tail);
      var rest := Insert(x, tail);
      InsertBehind(x, es, rest);
      [es[0]] + rest
  }

  lemma InsertInFront<V>(x: (string, V), es: seq<(string, V)>)
    requires Ascending(es) && es != [] && Text.Less(x.0, es[0].0)
    ensures Ascending([x] + es) && KeySet([x] + es) == KeySet(es) + {x.0}
  {
    forall k | k in KeySet(es) ensures Text.Less(x.0, k) {
      var j :| 0 <= j < |es| && es[j].0 == k;
      if j > 0 {
        Text.LessTransitive(x.0, es[0].0, es[j].0);
      }
    }
    ConsAscending(x, es);
    KeySetCons(x, es);
  }

  lemma InsertBehind<V>(x: (string, V), es: seq<(string, V)>, rest: seq<(string, V)>)
    requires Ascending(es) && es != [] && Text.Less(es[0].0, x.0)
    requires Ascending(rest) && multiset(rest) == multiset(es[1..]) + multiset{x} && KeySet(rest) == KeySet(es[1..]) + {x.0}
    ensures Ascending([es[0]] + rest)
    ensures multiset([es[0]] + rest) == multiset(es) + multiset{x}
    ensures KeySet([es[0]] + rest) == KeySet(es) + {x.0}
  {
    var tail := es[1..];
    assert es == [es[0]] + tail;
    KeySetCons(es[0], tail);
    forall k | k in KeySet(tail) ensures Text.Less(es[0].0, k) {
      var j :| 0 <= j < |tail| && tail[j].0 == k;
      assert tail[j] == es[j + 1];
    }
    ConsAscending(es[0], rest);
    KeySetCons(es[0], rest);
  }

  /** An entry whose key is below every key of an ascending list can go in front. */
  lemma ConsAscending<V>(y: (string, V), rest: seq<(string, V)>)
    requires Ascending(rest)
    requires forall k :: k in KeySet(rest) ==> Text.Less(y.0, k)
    ensures Ascending([y] + rest)
  {
    var r := [y] + rest;
    forall i, j | 0 <= i < j < |r| ensures Text.Less(r[i].0, r[j].0) {
      assert r[j] == rest[j - 1];
      if i > 0 {
        assert r[i] == rest[i - 1];
      } else {
        assert rest[j - 1].0 in KeySet(rest);
      }
    }
  }

  /**
   * Array.prototype.sort on keys that are all different: the one arrangement of the
   * entries that is ascending by key in string order.
   */
  function SortByKey<V(==)>(es: seq<(string, V)>): (r: seq<(string, V)>)
    requires DistinctKeys(es)
    ensures Ascending(r)
    ensures multiset(r) == multiset(es)
    ensures KeySet(r) == KeySet(es)
    decreases |es|
  {
    if es == [] then []
    else
      var tail := es[1..];
      assert es == [es[0]] + tail;
      KeySetCons(es[0], tail);
      Insert(es[0], SortByKey(tail))
  }

  /** Array.prototype.reverse */
  function Reverse<T>(s: seq<T>): (r: seq<T>)
    ensures |r| == |s| && forall i :: 0 <= i < |s| ==> r[i] == s[|s| - 1 - i]
    ensures multiset(r) == multiset(s)
    decreases |s|
  {
    if s == [] then []
    else
      var rest := Reverse(s[1..]);
      assert s == [s[0]] + s[1..];
      rest + [s[0]]
  }

  // ---------------------------------------------------------------------------
  // The attendance list
  // ---------------------------------------------------------------------------

  /** One line of the attendance list: the date and whether it shows present. */
  datatype AttendanceLine = AttendanceLine(date: string, present: bool)

  /**
   * displayAttendance: the keys of the decoded log sorted as strings and reversed, one
   * line each, present exactly when the date's value is truthy; a log that decodes to
   * null stops the display with a TypeError (None).
   */
  function AttendanceLines(attendance: Json): (r: Option<seq<AttendanceLine>>)
    ensures r.None? <==> attendance.JNull?
    ensures r.Some? ==> forall i, j :: 0 <= i < j < |r.value| ==> Text.Less(r.value[j].date, r.value[i].date)
    ensures r.Some? && attendance.JObject? ==>
      forall i :: 0 <= i < |r.value| ==>
        && Lookup(attendance.members, r.value[i].date).Some?
        && r.value[i].present == Truthy(Lookup(attendance.members, r.value[i].date).value)
    ensures r.Some? && attendance.JObject? ==>
      forall k :: Has(attendance.members, k) ==> exists i :: 0 <= i < |r.value| && r.value[i].date == k
  {
    if attendance.JNull? then None
    else
      var d := NewestFirst(attendance);
      LinesCover(d);
      Some(Lines(d))
  }

  /** Every key has a line. */
  predicate Covers(lines: seq<AttendanceLine>, keys: set<string>) {
    forall k :: k in keys ==> exists i :: 0 <= i < |lines| && lines[i].date == k
  }

  lemma LinesCover(d: seq<(string, Json)>)
    ensures Covers(Lines(d), KeySet(d))
  {
    var lines := Lines(d);
    forall k | k in KeySet(d) ensures exists i :: 0 <= i < |lines| && lines[i].date == k {
      var i := KeyIndex(d, k);
      assert lines[i].date == k;
    }
  }

  /** A key of the entries is the key of one of them. */
  lemma KeyIndex<V>(es: seq<(string, V)>, k: string) returns (i: nat)
    requires k in KeySet(es)
    ensures i < |es| && es[i].0 == k
  {
    i :| 0 <= i < |es| && es[i].0 == k;
  }

  /** dates.map(date => a line for date): one line per entry, in the same order. */
  function Lines(d: seq<(string, Json)>): (lines: seq<AttendanceLine>)
    ensures |lines| == |d|
    ensures forall i :: 0 <= i < |d| ==> lines[i].date == d[i].0 && lines[i].present == Truthy(d[i].1)
    decreases |d|
  {
    if d == [] then [] else [AttendanceLine(d[0].0, Truthy(d[0].1))] + Lines(d[1..])
  }

  /**
   * Object.keys(attendance).sort().reverse(), each key with its value: the entries in
   * descending key order, with the values the object gives them and all its keys.
   */
  function NewestFirst(attendance: Json): (d: seq<(string, Json)>)
    requires !attendance.JNull?
    ensures forall i, j :: 0 <= i < j < |d| ==> Text.Less(d[j].0, d[i].0)
    ensures attendance.JObject? ==> Agrees(d, attendance.members)
    ensures attendance.JObject? ==> forall k :: Has(attendance.members, k) <==> k in KeySet(d)
  {
    var es := Entries(attendance).value;
    var sorted := SortByKey(es);
    ReverseDescending(sorted);
    AgreesRearranged(es, Reverse(sorted), if attendance.JObject? then attendance.members else []);
    KeySetRearranged(es, Reverse(sorted));
    Reverse(sorted)
  }

  lemma ReverseDescending<V>(sorted: seq<(string, V)>)
    requires Ascending(sorted)
    ensures var d := Reverse(sorted); forall i, j :: 0 <= i < j < |d| ==> Text.Less(d[j].0, d[i].0)
  {
    var d := Reverse(sorted);
    forall i, j | 0 <= i < j < |d| ensures Text.Less(d[j].0, d[i].0) {
      assert d[j] == sorted[|d| - 1 - j] && d[i] == sorted[|d| - 1 - i];
    }
  }

  /** Rearranging entries keeps their values those of the object. */
  lemma AgreesRearranged<V>(a: seq<(string, V)>, b: seq<(string, V)>, members: seq<(string, V)>)
    requires multiset(a) == multiset(b)
    ensures Agrees(a, members) ==> Agrees(b, members)
  {
    if Agrees(a, members) {
      forall i | 0 <= i < |b| ensures Lookup(members, b[i].0) == Some(b[i].1) {
        assert b[i] in multiset(a);
        var m :| 0 <= m < |a| && a[m] == b[i];
      }
    }
  }

  /** Rearranging entries keeps their keys. */
  lemma KeySetRearranged<V>(a: seq<(string, V)>, b: seq<(string, V)>)
    requires multiset(a) == multiset(b)
    ensures KeySet(a) == KeySet(b)
  {
    forall k | k in KeySet(a) ensures k in KeySet(b) {
      var m :| 0 <= m < |a| && a[m].0 == k;
      assert a[m] in multiset(b);
      var i :| 0 <= i < |b| && b[i] == a[m];
    }
    forall k | k in KeySet(b) ensures k in KeySet(a) {
      var i :| 0 <= i < |b| && b[i].0 == k;
      assert b[i] in multiset(a);
      var m :| 0 <= m < |a| && a[m] == b[i];
    }
  }

  // ---------------------------------------------------------------------------
  // ISO dates
  // ---------------------------------------------------------------------------

  /** YYYY-MM-DD, the value of a date input. */
  predicate IsIsoDate(d: string) {
    && |d| == 10
    && Text.AllDigits(d[..4]) && d[4] == '-'
    && Text.AllDigits(d[5..7]) && d[7] == '-'
    && Text.AllDigits(d[8..])
  }

  function Year(d: string): nat
    requires IsIsoDate(d)
  {
    Text.DigitsValue(d[..4], 10)
  }

  function Month(d: string): nat
    requires IsIsoDate(d)
  {
    Text.DigitsValue(d[5..7], 10)
  }

  function DayOfMonth(d: string): nat
    requires IsIsoDate(d)
  {
    Text.DigitsValue(d[8..], 10)
  }

  /** Calendar order: by year, then month, then day. */
  predicate Earlier(a: string, b: string)
    requires IsIsoDate(a) && IsIsoDate(b)
  {
    || Year(a) < Year(b)
    || (Year(a) == Year(b) && Month(a) < Month(b))
    || (Year(a) == Year(b) && Month(a) == Month(b) && DayOfMonth(a) < DayOfMonth(b))
  }

  lemma SplitLess(x: string, y: string, n: nat)
    requires n <= |x| && n <= |y|
    ensures Text.Less(x, y) <==> Text.Less(x[..n], y[..n]) || (x[..n] == y[..n] && Text.Less(x[n..], y[n..]))
  {
    assert x == x[..n] + x[n..] && y == y[..n] + y[n..];
    Text.LessConcat(x[..n], x[n..], y[..n], y[n..]);
  }

  lemma DashLess(x: string, y: string)
    requires |x| > 0 && |y| > 0 && x[0] == '-' && y[0] == '-'
    ensures Text.Less(x, y) <==> Text.Less(x[1..], y[1..])
  {
  }

  /** For ISO dates, the string order the sort uses is calendar order. */
  lemma IsoDateOrder(a: string, b: string)
    requires IsIsoDate(a) && IsIsoDate(b)
    ensures Text.Less(a, b) <==> Earlier(a, b)
  {
    Text.DigitsOrder(a[..4], b[..4]);
    Text.DigitsOrder(a[5..7], b[5..7]);
    Text.DigitsOrder(a[8..], b[8..]);
    SplitLess(a, b, 4);
    DashLess(a[4..], b[4..]);
    var a5, b5 := a[4..][1..], b[4..][1..];
    assert a5 == a[5..] && b5 == b[5..];
    SplitLess(a5, b5, 2);
    assert a5[..2] == a[5..7] && b5[..2] == b[5..7];
    DashLess(a5[2..], b5[2..]);
    assert a5[2..][1..] == a[8..] && b5[2..][1..] == b[8..];
  }

  /**
   * With every date of the log in ISO form, the attendance list shows the newest date
   * first and each later line an earlier date.
   */
  lemma AttendanceNewestFirst(attendance: Json)
    requires attendance.JObject?
    requires forall i :: 0 <= i < |attendance.members| ==> IsIsoDate(attendance.members[i].0)
    ensures var lines := AttendanceLines(attendance).value;
      forall i, j :: 0 <= i < j < |lines| ==> IsIsoDate(lines[i].date) && IsIsoDate(lines[j].date) && Earlier(lines[j].date, lines[i].date)
  {
    var lines := AttendanceLines(attendance).value;
    forall i, j | 0 <= i < j < |lines|
      ensures IsIsoDate(lines[i].date) && IsIsoDate(lines[j].date) && Earlier(lines[j].date, lines[i].date)
    {
      var _ := Lookup(attendance.members, lines[i].date);
      var _ := Lookup(attendance.members, lines[j].date);
      IsoDateOrder(lines[j].date, lines[i].date);
    }
  }
}
