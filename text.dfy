/**
 * The JavaScript string primitives the application relies on, over Dafny strings:
 * trim, parseInt (no radix), non-negative integer toString, slice with a negative
 * start, substr, toUpperCase on ASCII letters, and the `<` ordering of strings that
 * Array.prototype.sort uses by default.
 */
module Text {
  import opened Wrappers

  // ---------------------------------------------------------------------------
  // White space and trim
  // ---------------------------------------------------------------------------

  /** The white-space and line-terminator characters that trim and parseInt skip. */
  predicate IsSpace(c: char) {
    || c == ' ' || c == '\t' || c == '\n' || c == '\U{000B}' || c == '\U{000C}' || c == '\r'
    || c == '\U{00A0}' || c == '\U{1680}' || ('\U{2000}' <= c <= '\U{200A}')
    || c == '\U{2028}' || c == '\U{2029}' || c == '\U{202F}' || c == '\U{205F}'
    || c == '\U{3000}' || c == '\U{FEFF}'
  }

  predicate AllSpace(s: string) {
    forall i :: 0 <= i < |s| ==> IsSpace(s[i])
  }

  /** s.trimStart(): the suffix of s left after dropping the leading white space. */
  function TrimStart(s: string): (r: string)
    ensures |r| <= |s| && r == s[|s| - |r|..]
    ensures AllSpace(s[..|s| - |r|])
    ensures r != [] ==> !IsSpace(r[0])
    decreases |s|
  {
    if |s| > 0 && IsSpace(s[0]) then
      var r := TrimStart(s[1..]);
      assert s[..|s| - |r|] == [s[0]] + s[1..][..|s| - 1 - |r|];
      r
    else
      s
  }

  /** s.trimEnd(): the prefix of s left after dropping the trailing white space. */
  function TrimEnd(s: string): (r: string)
    ensures |r| <= |s| && r == s[..|r|]
    ensures AllSpace(s[|r|..])
    ensures r != [] ==> !IsSpace(r[|r| - 1])
    decreases |s|
  {
    if |s| > 0 && IsSpace(s[|s| - 1]) then
      var r := TrimEnd(s[..|s| - 1]);
      assert s[|r|..] == s[..|s| - 1][|r|..] + [s[|s| - 1]];
      r
    else
      s
  }

  /**
   * s.trim(): s without its leading and trailing white space. It is empty exactly
   * when s is made only of white space, and otherwise begins and ends with a
   * character that is not white space.
   */
  function Trim(s: string): (r: string)
    ensures r == [] <==> AllSpace(s)
    ensures r != [] ==> !IsSpace(r[0]) && !IsSpace(r[|r| - 1])
    ensures Padded(s, |s| - |TrimStart(s)|, r)
  {
    var t := TrimStart(s);
    var r := TrimEnd(t);
    TrimStartBlank(s);
    TrimEndBlank(t);
    TrimmedSlice(s, t, r);
    r
  }

  /** s is r with white space before it (k characters) and white space after it. */
  predicate Padded(s: string, k: int, r: string) {
    && 0 <= k && k + |r| <= |s|
    && r == s[k..k + |r|] && AllSpace(s[..k]) && AllSpace(s[k + |r|..])
  }

  /** Dropping leading then trailing white space leaves a slice of s with white space on either side. */
  lemma TrimmedSlice(s: string, t: string, r: string)
    requires |t| <= |s| && t == s[|s| - |t|..] && AllSpace(s[..|s| - |t|])
    requires (t == [] <==> AllSpace(s)) && (t != [] ==> !IsSpace(t[0]))
    requires |r| <= |t| && r == t[..|r|] && AllSpace(t[|r|..])
    requires (r == [] <==> AllSpace(t)) && (r != [] ==> !IsSpace(r[|r| - 1]))
    ensures r == [] <==> AllSpace(s)
    ensures r != [] ==> !IsSpace(r[0]) && !IsSpace(r[|r| - 1])
    ensures Padded(s, |s| - |t|, r)
  {
    var k := |s| - |t|;
    assert r != [] ==> r[0] == t[0];
    assert r == s[k..k + |r|];
    assert s[k + |r|..] == t[|r|..];
  }

  lemma TrimStartBlank(s: string)
    ensures TrimStart(s) == [] <==> AllSpace(s)
  {
    var t := TrimStart(s);
    var k := |s| - |t|;
    if t == [] {
      assert s[..k] == s;
    } else {
      assert s[k] == t[0];
    }
  }

  lemma TrimEndBlank(s: string)
    ensures TrimEnd(s) == [] <==> AllSpace(s)
  {
    var t := TrimEnd(s);
    if t == [] {
      assert s[|t|..] == s;
    } else {
      assert s[|t| - 1] == t[|t| - 1];
    }
  }

  lemma TrimStartKeeps(s: string)
    requires s != [] && !IsSpace(s[0])
    ensures TrimStart(s) == s
  {
  }

  lemma TrimEndKeeps(s: string)
    requires s != [] && !IsSpace(s[|s| - 1])
    ensures TrimEnd(s) == s
  {
  }

  lemma TrimIdempotent(s: string)
    ensures Trim(Trim(s)) == Trim(s)
  {
    var r := Trim(s);
    if r != [] {
      TrimStartKeeps(r);
      TrimEndKeeps(r);
    }
  }

  // ---------------------------------------------------------------------------
  // Decimal digits and Number.prototype.toString
  // ---------------------------------------------------------------------------

  predicate IsDigit(c: char) {
    '0' <= c <= '9'
  }

  predicate AllDigits(s: string) {
    forall i :: 0 <= i < |s| ==> IsDigit(s[i])
  }

  function DigitChar(d: nat): (c: char)
    requires d < 10
    ensures IsDigit(c) && c as int - '0' as int == d
  {
    (d + '0' as int) as char
  }

  /** n.toString() for a non-negative integer: decimal digits with no leading zero. */
  function NatToString(n: nat): (r: string)
    ensures 1 <= |r| && AllDigits(r)
    ensures r[0] == '0' ==> n == 0 && |r| == 1
    decreases n
  {
    if n < 10 then [DigitChar(n)] else NatToString(n / 10) + [DigitChar(n % 10)]
  }

  /** String(i): a minus sign before the digits of a negative number. */
  function IntToString(i: int): (r: string)
    ensures r != [] && (r[0] == '-' <==> i < 0)
    ensures i >= 0 ==> AllDigits(r)
    ensures i < 0 ==> |r| >= 2 && AllDigits(r[1..]) && r[1] != '0'
  {
    if i < 0 then "-" + NatToString(-i) else NatToString(i)
  }

  function Pow(base: nat, k: nat): (r: nat)
    ensures r >= 1 || base == 0
  {
    if k == 0 then 1 else base * Pow(base, k - 1)
  }

  lemma {:induction false} NatToStringLength(n: nat, k: nat)
    requires n >= Pow(10, k)
    ensures |NatToString(n)| > k
    decreases k
  {
    if k > 0 {
      assert n >= 10;
      assert n / 10 >= Pow(10, k - 1);
      NatToStringLength(n / 10, k - 1);
    }
  }

  // ---------------------------------------------------------------------------
  // parseInt(s) without a radix
  // ---------------------------------------------------------------------------

  /** The value of c as a digit in the given radix (10 or 16), if it is one. */
  function DigitValue(c: char, radix: nat): Option<nat> {
    if '0' <= c <= '9' && c as int - '0' as int < radix then Some(c as int - '0' as int)
    else if radix == 16 && 'a' <= c <= 'f' then Some(c as int - 'a' as int + 10)
    else if radix == 16 && 'A' <= c <= 'F' then Some(c as int - 'A' as int + 10)
    else None
  }

  predicate AllDigitsIn(s: string, radix: nat) {
    forall i :: 0 <= i < |s| ==> DigitValue(s[i], radix).Some?
  }

  /** The length of the longest prefix of s made of digits of the radix. */
  function DigitRun(s: string, radix: nat): (k: nat)
    ensures k <= |s| && AllDigitsIn(s[..k], radix)
    ensures k < |s| ==> DigitValue(s[k], radix).None?
    decreases |s|
  {
    if |s| > 0 && DigitValue(s[0], radix).Some? then
      var k := 1 + DigitRun(s[1..], radix);
      assert s[..k] == [s[0]] + s[1..][..k - 1];
      k
    else
      0
  }

  /** The number a run of digits denotes, most significant digit first. */
  function DigitsValue(s: string, radix: nat): nat
    requires AllDigitsIn(s, radix)
  {
    if s == [] then 0
    else DigitsValue(s[..|s| - 1], radix) * radix + DigitValue(s[|s| - 1], radix).value
  }

  /**
   * parseInt(s): skip leading white space, read an optional sign, read the
   * "0x"/"0X" prefix that selects base 16, then the longest run of digits.
   * None stands for NaN (no digit at all).
   */
  function ParseInt(s: string): (r: Option<int>)
    ensures r.Some? ==> StartsNumber(TrimStart(s))
    ensures r.Some? && r.value < 0 ==> TrimStart(s)[0] == '-'
    ensures StartsDecimal(TrimStart(s)) ==> r.Some? && r.value >= 0
  {
    ParseSigned(TrimStart(s))
  }

  /** A digit, or a sign followed by a digit: what a number read by parseInt begins with. */
  predicate StartsNumber(t: string) {
    t != [] && (IsDigit(t[0]) || ((t[0] == '-' || t[0] == '+') && |t| >= 2 && IsDigit(t[1])))
  }

  /** A digit that does not open a "0x"/"0X" prefix. */
  predicate StartsDecimal(t: string) {
    t != [] && IsDigit(t[0]) && !(|t| >= 2 && t[0] == '0' && (t[1] == 'x' || t[1] == 'X'))
  }

  function ParseSigned(t: string): (r: Option<int>)
    ensures r.Some? ==> StartsNumber(t)
    ensures r.Some? && r.value < 0 ==> t[0] == '-'
    ensures StartsDecimal(t) ==> r.Some? && r.value >= 0
  {
    if |t| > 0 && t[0] == '-' then
      match ParseUnsigned(t[1..])
      case Some(v) => Some(-v)
      case None => None
    else if |t| > 0 && t[0] == '+' then ParseUnsigned(t[1..])
    else ParseUnsigned(t)
  }

  function ParseUnsigned(u: string): (r: Option<int>)
    ensures r.Some? ==> u != [] && IsDigit(u[0]) && r.value >= 0
    ensures StartsDecimal(u) ==> r.Some?
  {
    if |u| >= 2 && u[0] == '0' && (u[1] == 'x' || u[1] == 'X') then ParseDigits(u[2..], 16)
    else ParseDigits(u, 10)
  }

  function ParseDigits(b: string, radix: nat): (r: Option<int>)
    ensures r.Some? <==> b != [] && DigitValue(b[0], radix).Some?
    ensures r.Some? ==> r.value >= 0
  {
    var k := DigitRun(b, radix);
    if k == 0 then None else Some(DigitsValue(b[..k], radix))
  }

  /** parseInt(s) || 0: NaN (and -0) become 0. */
  function ParseIntOrZero(s: string): (r: int)
    ensures ParseInt(s).None? ==> r == 0
    ensures ParseInt(s).Some? ==> r == ParseInt(s).value
  {
    match ParseInt(s)
    case Some(v) => v
    case None => 0
  }

  lemma {:induction false} NatToStringValue(n: nat)
    ensures AllDigitsIn(NatToString(n), 10)
    ensures DigitsValue(NatToString(n), 10) == n
    decreases n
  {
    var s := NatToString(n);
    assert forall i :: 0 <= i < |s| ==> DigitValue(s[i], 10).Some?;
    if n >= 10 {
      NatToStringValue(n / 10);
      assert s[..|s| - 1] == NatToString(n / 10);
    }
  }

  lemma {:induction false} DigitRunOfDigits(d: string, rest: string)
    requires AllDigits(d)
    requires rest == [] || !IsDigit(rest[0])
    ensures DigitRun(d + rest, 10) == |d|
    decreases |d|
  {
    if d != [] {
      assert (d + rest)[1..] == d[1..] + rest;
      DigitRunOfDigits(d[1..], rest);
    }
  }

  /**
   * Reading back the decimal text of an integer: parseInt recovers i from String(i),
   * and stops at the first character after it that is not a digit ("85.5" reads as 85),
   * unless that character turns a lone "0" into the hexadecimal prefix "0x".
   */
  lemma ParseIntOfIntToString(i: int, rest: string)
    requires rest == [] || (!IsDigit(rest[0]) && (i != 0 || (rest[0] != 'x' && rest[0] != 'X')))
    ensures ParseInt(IntToString(i) + rest) == Some(i)
  {
    var s := IntToString(i) + rest;
    if i < 0 {
      ParseNegative(-i, rest, s);
    } else {
      ParseNonNegative(i, rest, s);
    }
  }

  lemma ParseNonNegative(n: nat, rest: string, s: string)
    requires rest == [] || (!IsDigit(rest[0]) && (n != 0 || (rest[0] != 'x' && rest[0] != 'X')))
    requires s == NatToString(n) + rest
    ensures ParseInt(s) == Some(n)
  {
    var c := NatToString(n)[0];
    assert s[0] == c;
    DigitIsNotSpace(c);
    TrimStartKeeps(s);
    UnsignedStart(s, c);
    ParseUnsignedOfNatToString(n, rest);
  }

  /** Text that begins with a digit carries no sign. */
  lemma UnsignedStart(t: string, c: char)
    requires t != [] && t[0] == c && IsDigit(c)
    ensures ParseSigned(t) == ParseUnsigned(t)
  {
  }

  lemma ParseNegative(n: nat, rest: string, s: string)
    requires n > 0
    requires rest == [] || !IsDigit(rest[0])
    requires s == "-" + NatToString(n) + rest
    ensures ParseInt(s) == Some(-(n as int))
  {
    var u := NatToString(n) + rest;
    assert s[0] == '-' && s[1..] == u;
    DigitIsNotSpace('-');
    TrimStartKeeps(s);
    ParseUnsignedOfNatToString(n, rest);
    NegativeStart(s, u, n);
  }

  /** Text that begins with '-' reads as the negation of what follows it. */
  lemma NegativeStart(t: string, u: string, v: int)
    requires t != [] && t[0] == '-' && t[1..] == u
    requires ParseUnsigned(u) == Some(v)
    ensures ParseSigned(t) == Some(-v)
  {
  }


  lemma DigitIsNotSpace(c: char)
    requires c == '-' || IsDigit(c)
    ensures !IsSpace(c)
  {
  }

  lemma ParseUnsignedOfNatToString(n: nat, rest: string)
    requires rest == [] || (!IsDigit(rest[0]) && (n != 0 || (rest[0] != 'x' && rest[0] != 'X')))
    ensures ParseUnsigned(NatToString(n) + rest) == Some(n)
  {
    var d := NatToString(n);
    var u := d + rest;
    assert u[0] == d[0];
    assert |u| >= 2 && u[0] == '0' ==> d == "0" && u[1] == rest[0];
    DigitRunOfDigits(d, rest);
    assert u[..|d|] == d;
    NatToStringValue(n);
  }

  /** An empty or blank input reads as NaN, so parseInt(s) || 0 is 0. */
  lemma BlankParsesAsZero(s: string)
    requires AllSpace(s)
    ensures ParseInt(s) == None && ParseIntOrZero(s) == 0
  {
    TrimStartBlank(s);
  }

  // ---------------------------------------------------------------------------
  // slice, substr, toUpperCase
  // ---------------------------------------------------------------------------

  /** s.slice(-n) for n >= 1: the last n characters, or all of s when it is shorter. */
  function SliceLast(s: string, n: nat): (r: string)
    requires n >= 1
    ensures IsSuffix(r, s)
    ensures |r| <= n && (|s| <= n ==> r == s)
  {
    if |s| <= n then s else s[|s| - n..]
  }

  /** Past n characters, s.slice(-n) has exactly n. */
  lemma SliceLastFull(s: string, n: nat)
    requires 1 <= n < |s|
    ensures |SliceLast(s, n)| == n
  {
  }

  /** r is the tail of s. */
  predicate IsSuffix(r: string, s: string) {
    |r| <= |s| && r == s[|s| - |r|..]
  }

  /** s.substr(start, length) for a non-negative start. */
  function Substr(s: string, start: nat, length: nat): (r: string)
    ensures |r| == if start >= |s| then 0 else if start + length >= |s| then |s| - start else length
    ensures forall i :: 0 <= i < |r| ==> start + i < |s| && r[i] == s[start + i]
  {
    if start >= |s| then [] else if start + length >= |s| then s[start..] else s[start..start + length]
  }

  function UpperChar(c: char): char {
    if 'a' <= c <= 'z' then (c as int - 'a' as int + 'A' as int) as char else c
  }

  /** s.toUpperCase() on ASCII letters; every other character is kept. */
  function ToUpper(s: string): (r: string)
    ensures |r| == |s|
    ensures forall i :: 0 <= i < |s| ==> r[i] == UpperChar(s[i])
  {
    seq(|s|, i requires 0 <= i < |s| => UpperChar(s[i]))
  }

  // ---------------------------------------------------------------------------
  // String order (a < b in JavaScript)
  // ---------------------------------------------------------------------------

  /** a < b on strings: the first differing character decides, and a proper prefix is smaller. */
  predicate Less(a: string, b: string): (r: bool)
    ensures r ==> a != b
    ensures |a| <= |b| && a == b[..|a|] ==> (r <==> |a| < |b|)
    decreases |a|
  {
    if a == [] then b != []
    else if b == [] then false
    else if a[0] != b[0] then a[0] < b[0]
    else Less(a[1..], b[1..])
  }

  lemma {:induction false} LessIrreflexive(a: string)
    ensures !Less(a, a)
    decreases |a|
  {
    if a != [] {
      LessIrreflexive(a[1..]);
    }
  }

  lemma {:induction false} LessTransitive(a: string, b: string, c: string)
    requires Less(a, b) && Less(b, c)
    ensures Less(a, c)
    decreases |a|
  {
    if a != [] && a[0] == b[0] && b[0] == c[0] {
      LessTransitive(a[1..], b[1..], c[1..]);
    }
  }

  lemma {:induction false} LessTotal(a: string, b: string)
    requires a != b
    ensures Less(a, b) || Less(b, a)
    decreases |a|
  {
    if a != [] && b != [] && a[0] == b[0] {
      assert a == [a[0]] + a[1..] && b == [b[0]] + b[1..];
      LessTotal(a[1..], b[1..]);
    }
  }

  lemma LessAsymmetric(a: string, b: string)
    requires Less(a, b)
    ensures !Less(b, a)
  {
    if Less(b, a) {
      LessTransitive(a, b, a);
      LessIrreflexive(a);
    }
  }

  /** Comparing two strings that start with prefixes of equal length compares the prefixes first. */
  lemma {:induction false} LessConcat(p1: string, q1: string, p2: string, q2: string)
    requires |p1| == |p2|
    ensures Less(p1 + q1, p2 + q2) <==> Less(p1, p2) || (p1 == p2 && Less(q1, q2))
    decreases |p1|
  {
    if p1 == [] {
      assert p1 + q1 == q1 && p2 + q2 == q2;
    } else {
      assert (p1 + q1)[0] == p1[0] && (p2 + q2)[0] == p2[0];
      assert (p1 + q1)[1..] == p1[1..] + q1 && (p2 + q2)[1..] == p2[1..] + q2;
      LessConcat(p1[1..], q1, p2[1..], q2);
      if p1[0] == p2[0] {
        assert p1 == p2 <==> p1[1..] == p2[1..] by {
          assert p1 == [p1[0]] + p1[1..] && p2 == [p2[0]] + p2[1..];
        }
      }
    }
  }

  /** For digit strings of equal length, string order is numeric order. */
  lemma {:induction false} DigitsOrder(x: string, y: string)
    requires |x| == |y| && AllDigits(x) && AllDigits(y)
    ensures AllDigitsIn(x, 10) && AllDigitsIn(y, 10)
    ensures Less(x, y) <==> DigitsValue(x, 10) < DigitsValue(y, 10)
    ensures x == y <==> DigitsValue(x, 10) == DigitsValue(y, 10)
    decreases |x|
  {
    assert forall i :: 0 <= i < |x| ==> DigitValue(x[i], 10).Some?;
    assert forall i :: 0 <= i < |y| ==> DigitValue(y[i], 10).Some?;
    if x != [] {
      var n := |x| - 1;
      var x', y' := x[..n], y[..n];
      assert x == x' + [x[n]] && y == y' + [y[n]];
      DigitsOrder(x', y');
      LessConcat(x', [x[n]], y', [y[n]]);
      LessSingle(x[n], y[n]);
      PlaceValue(DigitsValue(x', 10), DigitsValue(y', 10), x[n] as int - '0' as int, y[n] as int - '0' as int);
    }
  }

  lemma LessSingle(c: char, d: char)
    ensures Less([c], [d]) <==> c < d
  {
    if c == d {
      assert [c][1..] == [];
    }
  }

  /** Appending a decimal digit to each of two numbers compares the numbers first. */
  lemma PlaceValue(u: nat, v: nat, a: nat, b: nat)
    requires a < 10 && b < 10
    ensures u * 10 + a < v * 10 + b <==> u < v || (u == v && a < b)
    ensures u * 10 + a == v * 10 + b <==> u == v && a == b
  {
  }
}
