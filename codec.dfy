/**
  Conversion between a 1-based pair number and its colour pair, and the
  enumeration of all pairs in pair-number order.

  A pair number is the two-digit number, in base NumberOfMinorColors, of
  (major ordinal, minor ordinal), plus one.  The source does no bounds
  checking, so an out-of-range pair number is excluded by precondition.
 */
module Codec {
  import opened Palettes
  import opened ColorPairs

  /** The number of pairs in a binder group. */
  const PairCount: nat := NumberOfMajorColors * NumberOfMinorColors

  /** A pair number in 1..PairCount decomposes into a pair whose number is the input. */
  function GetColorFromPairNumber(pairNumber: int): (p: ColorPair)
    requires 1 <= pairNumber <= PairCount
    ensures GetPairNumberFromColor(p.GetMajor(), p.GetMinor()) == pairNumber
  {
    var zeroBased := pairNumber - 1;
    ColorPair(MajorFromOrdinal(zeroBased / NumberOfMinorColors),
              MinorFromOrdinal(zeroBased % NumberOfMinorColors))
  }

  /** Every pair of colours has a pair number in 1..PairCount. */
  function GetPairNumberFromColor(major: MajorColor, minor: MinorColor): (pairNumber: int)
    ensures 1 <= pairNumber <= PairCount
  {
    MajorOrdinal(major) * NumberOfMinorColors + MinorOrdinal(minor) + 1
  }

  /** Encoding a pair and decoding the number gives exactly that pair back. */
  lemma ColorRoundTrip(major: MajorColor, minor: MinorColor)
    ensures GetColorFromPairNumber(GetPairNumberFromColor(major, minor)) == ColorPair(major, minor)
  {
    OrdinalsRoundTrip(major, minor);
  }

  /**
    The ordinals of a decoded pair are the quotient and remainder of the
    zero-based pair number by NumberOfMinorColors, both in 0..4: the minor
    colour turns over first.
   */
  lemma PairNumberDigits(pairNumber: int)
    requires 1 <= pairNumber <= PairCount
    ensures var p := GetColorFromPairNumber(pairNumber);
      MajorOrdinal(p.GetMajor()) == (pairNumber - 1) / NumberOfMinorColors < NumberOfMajorColors &&
      MinorOrdinal(p.GetMinor()) == (pairNumber - 1) % NumberOfMinorColors < NumberOfMinorColors
  {
  }

  /** Two pair numbers with the same colours are the same number. */
  lemma GetColorFromPairNumberInjective(m: int, n: int)
    requires 1 <= m <= PairCount && 1 <= n <= PairCount
    ensures GetColorFromPairNumber(m) == GetColorFromPairNumber(n) ==> m == n
  {
  }

  /** The values fixed by the source's own checks. */
  lemma KnownPairNumbers()
    ensures GetColorFromPairNumber(4) == ColorPair(White, Brown)
    ensures GetColorFromPairNumber(5) == ColorPair(White, Slate)
    ensures GetPairNumberFromColor(Black, Orange) == 12
    ensures GetPairNumberFromColor(Violet, Slate) == 25
  {
  }

  /** Every pair, in pair-number order: element i is the pair numbered i + 1. */
  function AllColorPairs(): seq<ColorPair>
  {
    seq(PairCount, i requires 0 <= i < PairCount => GetColorFromPairNumber(i + 1))
  }

  /** The listing walks the majors in order and, within each, the minors in order. */
  lemma AllColorPairsMinorFastest(i: nat)
    requires i < |AllColorPairs()|
    ensures var p := AllColorPairs()[i];
      p.GetMajor() == MajorFromOrdinal(i / NumberOfMinorColors) &&
      p.GetMinor() == MinorFromOrdinal(i % NumberOfMinorColors)
  {
  }

  /**
    Neighbouring entries of the listing: within a major colour the minor
    ordinal goes up by one; after the last minor colour the major ordinal
    goes up by one and the minor colour starts again at the first.
   */
  lemma AllColorPairsStep(i: nat)
    requires i + 1 < |AllColorPairs()|
    ensures var p, q := AllColorPairs()[i], AllColorPairs()[i + 1];
      (i + 1) % NumberOfMinorColors != 0 ==>
        q.GetMajor() == p.GetMajor() && MinorOrdinal(q.GetMinor()) == MinorOrdinal(p.GetMinor()) + 1
    ensures var p, q := AllColorPairs()[i], AllColorPairs()[i + 1];
      (i + 1) % NumberOfMinorColors == 0 ==>
        MajorOrdinal(q.GetMajor()) == MajorOrdinal(p.GetMajor()) + 1 && q.GetMinor() == Blue
  {
    var n := NumberOfMinorColors;
    PairNumberDigits(i + 1);
    PairNumberDigits(i + 2);
    if (i + 1) % n != 0 {
      assert (i + 1) / n == i / n && (i + 1) % n == i % n + 1;
    } else {
      assert (i + 1) / n == i / n + 1;
    }
  }

  /** The listing has PairCount elements and no two of them are equal. */
  lemma AllColorPairsDistinct()
    ensures |AllColorPairs()| == PairCount
    ensures forall i, j :: 0 <= i < j < |AllColorPairs()| ==> AllColorPairs()[i] != AllColorPairs()[j]
  {
    var all := AllColorPairs();
    forall i, j | 0 <= i < j < |all|
      ensures all[i] != all[j]
    {
      GetColorFromPairNumberInjective(i + 1, j + 1);
    }
  }

  /** Every pair of colours is listed, at the position just before its pair number. */
  lemma AllColorPairsComplete(major: MajorColor, minor: MinorColor)
    ensures var n := GetPairNumberFromColor(major, minor);
      0 <= n - 1 < |AllColorPairs()| && AllColorPairs()[n - 1] == ColorPair(major, minor)
  {
    ColorRoundTrip(major, minor);
  }

  /** Lists every pair by two nested loops, the minor colour innermost. */
  method GetAllColorPairs() returns (pairs: seq<ColorPair>)
    ensures |pairs| == PairCount
    ensures forall i :: 0 <= i < |pairs| ==> pairs[i] == GetColorFromPairNumber(i + 1)
    ensures pairs == AllColorPairs()
  {
    pairs := [];
    for major := 0 to NumberOfMajorColors
      invariant |pairs| == major * NumberOfMinorColors
      invariant forall i :: 0 <= i < |pairs| ==> pairs[i] == GetColorFromPairNumber(i + 1)
    {
      for minor := 0 to NumberOfMinorColors
        invariant |pairs| == major * NumberOfMinorColors + minor
        invariant forall i :: 0 <= i < |pairs| ==> pairs[i] == GetColorFromPairNumber(i + 1)
      {
        var p := ColorPair(MajorFromOrdinal(major), MinorFromOrdinal(minor));
        ColorRoundTrip(p.GetMajor(), p.GetMinor());
        pairs := pairs + [p];
      }
    }
  }
}
