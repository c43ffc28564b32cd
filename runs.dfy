/**
 * A run: a contiguous sequence of pixels of the same colour along one axis,
 * given by its first coordinate, its length in pixels and its mean grey level.
 * Coordinates are Java `int`s, so every sum is taken modulo 2^32.
 */
module Runs {
  import opened JavaInt
  import opened Wrappers
  import Decimal

  /** The section that contains a run (the lag's sections are not part of this model). */
  class Section { }

  function Max(a: int, b: int): int { if a >= b then a else b }
  function Min(a: int, b: int): int { if a <= b then a else b }

  /** The coordinate of a run's last pixel, `(start + length) - 1` in `int` arithmetic. */
  function StopOf(start: Int32, length: Int32): (r: Int32)
    ensures InRange(start + length - 1) ==> r == start + length - 1
    ensures (r - (start + length - 1)) % MODULUS == 0
  {
    WrapOfWrap(start + length, -1);
    Wrap(Wrap(start + length) - 1)
  }

  /**
   * The length of the part two runs have in common:
   * `min(stopA, stopB) - max(startA, startB) + 1`, in `int` arithmetic.
   * A result of 0 or less means the two runs share no coordinate.
   */
  function CommonLengthOf(startA: Int32, lengthA: Int32, startB: Int32, lengthB: Int32): (r: Int32)
    ensures var exact := Min(StopOf(startA, lengthA), StopOf(startB, lengthB)) - Max(startA, startB) + 1;
            InRange(exact) ==> r == exact
    ensures var exact := Min(StopOf(startA, lengthA), StopOf(startB, lengthB)) - Max(startA, startB) + 1;
            (r - exact) % MODULUS == 0
  {
    var startCommon := Max(startA, startB);
    var stopCommon := Min(StopOf(startA, lengthA), StopOf(startB, lengthB));
    WrapOfWrap(stopCommon - startCommon, 1);
    Wrap(Wrap(stopCommon - startCommon) + 1)
  }

  /** The text `{Run <start>/<length>@<level>}` with each number in Java's decimal form. */
  function RunText(start: int, length: int, level: int): string {
    "{Run " + Decimal.IntToString(start) + "/" + Decimal.IntToString(length)
      + "@" + Decimal.IntToString(level) + "}"
  }

  class Run {
    /** Number of pixels; final, and not checked to be non-negative. */
    const length: Int32
    /** Average grey level along the run (0 black, 255 white); final. */
    const level: Int32
    /** Coordinate of the first pixel: x for a horizontal run, y for a vertical one. */
    var start: Int32
    /** Containing section, if any. */
    var section: Section?

    constructor (start: Int32, length: Int32, level: Int32)
      ensures this.start == start && this.length == length && this.level == level
      ensures section == null
    {
      this.start := start;
      this.length := length;
      this.level := level;
      section := null;
    }

    /** The private constructor used for unmarshalling: the run (0, 0, 0), which ends at -1. */
    constructor Default()
      ensures start == 0 && length == 0 && level == 0 && section == null
      ensures Stop() == -1
    {
      start := 0;
      length := 0;
      level := 0;
      section := null;
    }

    function Stop(): Int32
      reads this
    {
      StopOf(start, length)
    }

    function CommonLength(other: Run): Int32
      reads this, other
    {
      CommonLengthOf(start, length, other.start, other.length)
    }

    /** Field-by-field comparison of start, length and level; the section is not compared. */
    predicate IsIdentical(that: Run)
      reads this, that
    {
      start == that.start && length == that.length && level == that.level
    }

    function ToString(): string
      reads this
    {
      RunText(start, length, level)
    }

    /** Shifts the run by `dc`: `start += dc` in `int` arithmetic; length, level and section stay. */
    method Translate(dc: Int32)
      modifies this`start
      ensures start == Wrap(old(start) + dc)
      ensures InRange(old(start) + dc) ==> start == old(start) + dc
      ensures (InRange(old(start) + dc) && InRange(old(start) + length - 1) && InRange(old(start) + dc + length - 1))
                ==> Stop() == old(Stop()) + dc
      ensures section == old(section)
    {
      start := Wrap(start + dc);
    }

    method SetSection(s: Section?)
      modifies this`section
      ensures section == s
      ensures start == old(start)
    {
      section := s;
    }
  }

  // ----- Properties of the common length -----

  lemma CommonLengthSymmetric(a: Run, b: Run)
    ensures a.CommonLength(b) == b.CommonLength(a)
  {
  }

  /**
   * A run has its own length in common with itself, even when its stop
   * overflows: the two wrap-arounds cancel.
   */
  lemma CommonLengthWithSelf(a: Run)
    ensures a.CommonLength(a) == a.length
  {
    SelfCommonLength(a.start, a.length);
  }

  lemma SelfCommonLength(s: Int32, l: Int32)
    ensures CommonLengthOf(s, l, s, l) == l
  {
    var stop := StopOf(s, l);
    assert CommonLengthOf(s, l, s, l) == Wrap(Wrap(stop - s) + 1);
    WrapOfWrap(stop - s, 1);
    assert (stop - s + 1) - l == stop - (s + l - 1);
    WrapCongruent(stop - s + 1, l);
  }

  /** Where no sum overflows, the common part is no longer than either run. */
  lemma CommonLengthAtMost(sA: Int32, lA: Int32, sB: Int32, lB: Int32)
    requires InRange(sA + lA - 1) && InRange(sB + lB - 1)
    requires InRange(Min(sA + lA - 1, sB + lB - 1) - Max(sA, sB) + 1)
    ensures CommonLengthOf(sA, lA, sB, lB) <= lA && CommonLengthOf(sA, lA, sB, lB) <= lB
  {
  }

  /**
   * For runs of at least one pixel whose sums do not overflow, the common length
   * is positive exactly when the two pixel intervals overlap.
   */
  lemma CommonLengthPositiveIffOverlap(sA: Int32, lA: Int32, sB: Int32, lB: Int32)
    requires lA >= 1 && lB >= 1
    requires InRange(sA + lA - 1) && InRange(sB + lB - 1)
    requires InRange(Min(sA + lA - 1, sB + lB - 1) - Max(sA, sB) + 1)
    ensures CommonLengthOf(sA, lA, sB, lB) >= 1 <==> sA <= sB + lB - 1 && sB <= sA + lA - 1
  {
  }

  /** Translating both runs by the same amount keeps their common length, when nothing overflows. */
  lemma TranslatePreservesCommonLength(sA: Int32, lA: Int32, sB: Int32, lB: Int32, dc: Int32)
    requires InRange(sA + dc) && InRange(sB + dc)
    requires InRange(sA + lA - 1) && InRange(sB + lB - 1)
    requires InRange(sA + dc + lA - 1) && InRange(sB + dc + lB - 1)
    requires InRange(Min(sA + lA - 1, sB + lB - 1) - Max(sA, sB) + 1)
    ensures CommonLengthOf(sA + dc, lA, sB + dc, lB) == CommonLengthOf(sA, lA, sB, lB)
  {
  }

  // ----- Properties of identity -----

  /** IsIdentical is an equivalence relation. */
  lemma IsIdenticalEquivalence(a: Run, b: Run, c: Run)
    ensures a.IsIdentical(a)
    ensures a.IsIdentical(b) <==> b.IsIdentical(a)
    ensures a.IsIdentical(b) && b.IsIdentical(c) ==> a.IsIdentical(c)
  {
  }

  // ----- Properties of the text form -----

  /** The first position of `c` in `s`. */
  function IndexOf(s: string, c: char): (r: Option<nat>)
    ensures r.Some? ==> r.value < |s| && s[r.value] == c && c !in s[..r.value]
    ensures r.None? ==> c !in s
  {
    if s == [] then None
    else if s[0] == c then Some(0)
    else match IndexOf(s[1..], c)
      case None => None
      case Some(i) => assert s[..i + 1] == [s[0]] + s[1..][..i]; Some(i + 1)
  }

  lemma IndexOfFirst(s: string, c: char, k: nat)
    requires k < |s| && s[k] == c && c !in s[..k]
    ensures IndexOf(s, c) == Some(k)
  {
    assert s[k] in s;
  }

  /** Splitting `a + [sep] + rest` at the first `sep` gives back `a` and `rest` when `a` has no `sep`. */
  lemma SplitAtFirst(a: string, sep: char, rest: string)
    requires sep !in a
    ensures IndexOf(a + [sep] + rest, sep) == Some(|a|)
    ensures (a + [sep] + rest)[..|a|] == a && (a + [sep] + rest)[|a| + 1..] == rest
  {
    var s := a + [sep] + rest;
    assert s[..|a|] == a;
    IndexOfFirst(s, sep, |a|);
  }

  /** Reads back the start, length and level from the text form of a run. */
  function ParseRunText(t: string): Option<(int, int, int)> {
    if |t| < 6 || t[..5] != "{Run " || t[|t| - 1] != '}' then None
    else ParseFields(t[5..|t| - 1])
  }

  /** Reads `<start>/<length>@<level>`. */
  function ParseFields(body: string): Option<(int, int, int)> {
    match IndexOf(body, '/')
    case None => None
    case Some(i) => ParseLengthLevel(Decimal.ParseInt(body[..i]), body[i + 1..])
  }

  /** Reads `<length>@<level>` after a start already read. */
  function ParseLengthLevel(start: Option<int>, rest: string): Option<(int, int, int)> {
    match IndexOf(rest, '@')
    case None => None
    case Some(j) =>
      if start.Some? && Decimal.ParseInt(rest[..j]).Some? && Decimal.ParseInt(rest[j + 1..]).Some?
      then Some((start.value, Decimal.ParseInt(rest[..j]).value, Decimal.ParseInt(rest[j + 1..]).value))
      else None
  }

  lemma NoSeparatorInNumber(n: int, c: char)
    requires c == '/' || c == '@'
    ensures c !in Decimal.IntToString(n)
  {
  }

  /** The text form of a run determines its start, length and level. */
  lemma RunTextRoundTrip(start: int, length: int, level: int)
    ensures ParseRunText(RunText(start, length, level)) == Some((start, length, level))
  {
    var a, b, c := Decimal.IntToString(start), Decimal.IntToString(length), Decimal.IntToString(level);
    var rest := b + ['@'] + c;
    RunTextFramed(start, length, level);
    FramedBody(a + ['/'] + rest);
    NoSeparatorInNumber(start, '/');
    SplitAtFirst(a, '/', rest);
    Decimal.ParseIntToString(start);
    LengthLevelRoundTrip(start, length, level);
  }

  lemma RunTextFramed(start: int, length: int, level: int)
    ensures RunText(start, length, level)
            == "{Run " + (Decimal.IntToString(start) + ['/']
                          + (Decimal.IntToString(length) + ['@'] + Decimal.IntToString(level))) + "}"
  {
  }

  lemma LengthLevelRoundTrip(start: int, length: int, level: int)
    ensures ParseLengthLevel(Some(start), Decimal.IntToString(length) + ['@'] + Decimal.IntToString(level))
            == Some((start, length, level))
  {
    NoSeparatorInNumber(length, '@');
    SplitAtFirst(Decimal.IntToString(length), '@', Decimal.IntToString(level));
    Decimal.ParseIntToString(length);
    Decimal.ParseIntToString(level);
  }

  lemma FramedBody(body: string)
    ensures ParseRunText("{Run " + body + "}") == ParseFields(body)
  {
    var t := "{Run " + body + "}";
    assert t[..5] == "{Run " && t[5..|t| - 1] == body;
  }

  /** Two runs have the same text exactly when they are identical field by field. */
  lemma ToStringIffIdentical(x: Run, y: Run)
    ensures x.ToString() == y.ToString() <==> x.IsIdentical(y)
  {
    RunTextRoundTrip(x.start, x.length, x.level);
    RunTextRoundTrip(y.start, y.length, y.level);
  }
}
