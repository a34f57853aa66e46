/**
  The two fixed palettes of the 25-pair telephone cable colour code.

  A major colour and a minor colour are enumerations whose ordinal is the
  position of their display name in the palette table, as C++ enums are.
 */
module Palettes {

  /** The colour of the binder-group (primary) conductor of a pair. */
  datatype MajorColor = White | Red | Black | Yellow | Violet

  /** The colour of the secondary conductor of a pair. */
  datatype MinorColor = Blue | Orange | Green | Brown | Slate

  const MajorColorNames: seq<string> := ["White", "Red", "Black", "Yellow", "Violet"]
  const NumberOfMajorColors: nat := |MajorColorNames|

  const MinorColorNames: seq<string> := ["Blue", "Orange", "Green", "Brown", "Slate"]
  const NumberOfMinorColors: nat := |MinorColorNames|

  /** A display name is a non-empty run of letters: no space, comma, digit or newline. */
  predicate IsWord(s: string)
  {
    |s| > 0 && forall k :: 0 <= k < |s| ==> ('A' <= s[k] <= 'Z' || 'a' <= s[k] <= 'z')
  }

  /** Every entry of both palettes is a word. */
  lemma PaletteNamesAreWords()
    ensures forall k :: 0 <= k < |MajorColorNames| ==> IsWord(MajorColorNames[k])
    ensures forall k :: 0 <= k < |MinorColorNames| ==> IsWord(MinorColorNames[k])
  {
    assert IsWord("White") && IsWord("Red") && IsWord("Black") && IsWord("Yellow") && IsWord("Violet");
    assert IsWord("Blue") && IsWord("Orange") && IsWord("Green") && IsWord("Brown") && IsWord("Slate");
  }

  /** The implicit conversion of a major colour to its integer ordinal. */
  function MajorOrdinal(c: MajorColor): (k: nat)
    ensures k < NumberOfMajorColors
  {
    match c
    case White => 0
    case Red => 1
    case Black => 2
    case Yellow => 3
    case Violet => 4
  }

  /** The cast of an in-range ordinal back to a major colour. */
  function MajorFromOrdinal(k: nat): (c: MajorColor)
    requires k < NumberOfMajorColors
    ensures MajorOrdinal(c) == k
  {
    if k == 0 then White
    else if k == 1 then Red
    else if k == 2 then Black
    else if k == 3 then Yellow
    else Violet
  }

  /** The implicit conversion of a minor colour to its integer ordinal. */
  function MinorOrdinal(c: MinorColor): (k: nat)
    ensures k < NumberOfMinorColors
  {
    match c
    case Blue => 0
    case Orange => 1
    case Green => 2
    case Brown => 3
    case Slate => 4
  }

  /** The cast of an in-range ordinal back to a minor colour. */
  function MinorFromOrdinal(k: nat): (c: MinorColor)
    requires k < NumberOfMinorColors
    ensures MinorOrdinal(c) == k
  {
    if k == 0 then Blue
    else if k == 1 then Orange
    else if k == 2 then Green
    else if k == 3 then Brown
    else Slate
  }

  /** Casting an ordinal back gives the colour it came from: ordinals are a bijection onto 0..4. */
  lemma OrdinalsRoundTrip(major: MajorColor, minor: MinorColor)
    ensures MajorFromOrdinal(MajorOrdinal(major)) == major
    ensures MinorFromOrdinal(MinorOrdinal(minor)) == minor
  {
  }

  /** The display name of a major colour: the palette entry at its ordinal. */
  function MajorName(c: MajorColor): (name: string)
    ensures IsWord(name)
  {
    PaletteNamesAreWords();
    MajorColorNames[MajorOrdinal(c)]
  }

  /** The display name of a minor colour: the palette entry at its ordinal. */
  function MinorName(c: MinorColor): (name: string)
    ensures IsWord(name)
  {
    PaletteNamesAreWords();
    MinorColorNames[MinorOrdinal(c)]
  }

  /** No two colours of one palette share a display name. */
  lemma NamesAreDistinct(a: MajorColor, b: MajorColor, x: MinorColor, y: MinorColor)
    ensures MajorName(a) == MajorName(b) ==> a == b
    ensures MinorName(x) == MinorName(y) ==> x == y
  {
    OrdinalsRoundTrip(a, x);
    OrdinalsRoundTrip(b, y);
  }
}
