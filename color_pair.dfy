/**
  An immutable pair of one major and one minor colour, with its display form.
 */
module ColorPairs {
  import opened Palettes
  import opened Text

  datatype ColorPair = ColorPair(majorColor: MajorColor, minorColor: MinorColor) {

    function GetMajor(): MajorColor
    {
      majorColor
    }

    function GetMinor(): MinorColor
    {
      minorColor
    }

    /** The major name, one space, then the minor name. */
    function ToString(): string
    {
      MajorName(majorColor) + " " + MinorName(minorColor)
    }
  }

  /** The accessors hand back the constructor's arguments unchanged. */
  lemma AccessorsReturnArguments(major: MajorColor, minor: MinorColor)
    ensures ColorPair(major, minor).GetMajor() == major
    ensures ColorPair(major, minor).GetMinor() == minor
  {
  }

  /**
    The display string splits at spaces into exactly two fields, the major
    name and the minor name: the names hold no space, so the single space
    is the separator.
   */
  lemma ToStringSplitsAtSpace(p: ColorPair)
    ensures Split(p.ToString(), ' ') == [MajorName(p.GetMajor()), MinorName(p.GetMinor())]
  {
    var major, minor := MajorName(p.GetMajor()), MinorName(p.GetMinor());
    SplitNoSeparator(major, ' ');
    SplitAppendField(major, ' ', minor);
  }

  /** Different pairs are displayed differently, so the display string identifies the pair. */
  lemma ToStringInjective(p: ColorPair, q: ColorPair)
    ensures p.ToString() == q.ToString() ==> p == q
  {
    ToStringSplitsAtSpace(p);
    ToStringSplitsAtSpace(q);
    NamesAreDistinct(p.GetMajor(), q.GetMajor(), p.GetMinor(), q.GetMinor());
  }
}
