/**
 * The shape shared by school codes and student codes:
 * `<prefix>-<last six digits of the clock>-<upper-cased random chunk>`.
 * The clock reading (Date.now()) and the random text (Math.random().toString(36))
 * are parameters.
 */
module Codes {
  import opened Wrappers
  import Text

  /** The inputs of one generation: a clock reading and a random text. */
  datatype Draw = Draw(now: nat, random: string)

  /** A character of Math.random().toString(36) after its leading "0.". */
  predicate IsBase36Char(c: char) {
    '0' <= c <= '9' || 'a' <= c <= 'z'
  }

  /** A character a code's random chunk is meant to hold. */
  predicate IsCodeChar(c: char) {
    '0' <= c <= '9' || 'A' <= c <= 'Z'
  }

  /** Every character after the leading "0." is a base-36 digit. */
  predicate IsRandomText(random: string) {
    forall i :: 2 <= i < |random| ==> IsBase36Char(random[i])
  }

  /** Date.now().toString().slice(-6) */
  function ClockPart(now: nat): (r: string)
    ensures |r| <= 6 && Text.IsSuffix(r, Text.NatToString(now))
  {
    Text.SliceLast(Text.NatToString(now), 6)
  }

  /** random.substr(2, 3).toUpperCase() */
  function RandomPart(random: string): (r: string)
    ensures |r| <= 3 && (|random| >= 5 ==> |r| == 3)
    ensures forall i :: 0 <= i < |r| ==> 2 + i < |random| && r[i] == Text.UpperChar(random[2 + i])
  {
    Text.ToUpper(Text.Substr(random, 2, 3))
  }

  /** Splits `<prefix>-<digits>-<rest>` into its digits and its rest. */
  function Split(prefix: string, code: string): Option<(string, string)> {
    if |code| < |prefix| + 1 || code[..|prefix| + 1] != prefix + "-" then None
    else
      var rest := code[|prefix| + 1..];
      var k := Text.DigitRun(rest, 10);
      if k < |rest| && rest[k] == '-' then Some((rest[..k], rest[k + 1..])) else None
  }

  /**
   * A generated code splits back into the clock part and the random part it was
   * built from; the clock part is one to six decimal digits (exactly six once the
   * clock reads at least 100000) and the random part has at most three characters,
   * each a digit or an upper-case letter when the random text is base 36.
   */
  function MakeCode(prefix: string, now: nat, random: string): (code: string)
    ensures Split(prefix, code) == Some((ClockPart(now), RandomPart(random)))
    ensures 1 <= |ClockPart(now)| <= 6 && Text.AllDigits(ClockPart(now))
    ensures now >= 100000 ==> |ClockPart(now)| == 6
    ensures |RandomPart(random)| <= 3
    ensures IsRandomText(random) ==> forall i :: 0 <= i < |RandomPart(random)| ==> IsCodeChar(RandomPart(random)[i])
  {
    var clock, chunk := ClockPart(now), RandomPart(random);
    var code := prefix + "-" + clock + "-" + chunk;
    ClockPartDigits(now);
    RandomPartChars(random);
    SplitJoin(prefix, clock, chunk, code);
    code
  }

  lemma ClockPartDigits(now: nat)
    ensures 1 <= |ClockPart(now)| <= 6 && Text.AllDigits(ClockPart(now))
    ensures now >= 100000 ==> |ClockPart(now)| == 6
  {
    var digits := Text.NatToString(now);
    var clock := ClockPart(now);
    assert clock == digits[|digits| - |clock|..];
    if now >= 100000 {
      assert Text.Pow(10, 5) == 100000;
      Text.NatToStringLength(now, 5);
    }
  }

  lemma RandomPartChars(random: string)
    ensures |RandomPart(random)| <= 3
    ensures IsRandomText(random) ==> forall i :: 0 <= i < |RandomPart(random)| ==> IsCodeChar(RandomPart(random)[i])
  {
    var part := Text.Substr(random, 2, 3);
    assert forall i :: 0 <= i < |part| ==> part[i] == random[i + 2];
  }

  /** Splitting undoes the joining of a prefix, a run of digits and a rest. */
  lemma SplitJoin(prefix: string, clock: string, chunk: string, code: string)
    requires clock != [] && Text.AllDigits(clock)
    requires code == prefix + "-" + clock + "-" + chunk
    ensures Split(prefix, code) == Some((clock, chunk))
  {
    var head := prefix + "-";
    var rest := clock + ("-" + chunk);
    assert code == head + rest;
    assert code[..|head|] == head && code[|head|..] == rest;
    Text.DigitRunOfDigits(clock, "-" + chunk);
    assert rest[..|clock|] == clock && rest[|clock| + 1..] == chunk;
  }

  /** Two codes that are equal were built from the same clock part and the same random part. */
  lemma MakeCodeInjective(prefix: string, now1: nat, random1: string, now2: nat, random2: string)
    requires MakeCode(prefix, now1, random1) == MakeCode(prefix, now2, random2)
    ensures ClockPart(now1) == ClockPart(now2) && RandomPart(random1) == RandomPart(random2)
  {
    assert Split(prefix, MakeCode(prefix, now1, random1)) == Split(prefix, MakeCode(prefix, now2, random2));
  }

  /**
   * The random chunk can be shorter than three characters: Math.random() == 0.5
   * prints as "0.i" in base 36, which leaves a one-character chunk.
   */
  lemma ShortRandomChunk()
    ensures RandomPart("0.i") == "I"
  {
  }
}
