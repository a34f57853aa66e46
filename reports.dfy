/**
  The two text reports over the full pair listing: a reference manual of
  "<number> | <major> <minor>" lines and a CSV table with a header line.
 */
module Reports {
  import opened Palettes
  import opened ColorPairs
  import opened Codec
  import opened Decimal
  import opened Text

  /** The text a report loop has written after visiting every pair of the list, in order. */
  function Render(pairs: seq<ColorPair>, line: (nat, ColorPair) -> string): string
  {
    if pairs == [] then ""
    else Render(pairs[..|pairs| - 1], line) + line(|pairs| - 1, pairs[|pairs| - 1])
  }

  /** The reference-manual line for the pair at index i of the listing. */
  function ManualLine(i: nat, p: ColorPair): string
  {
    NatToString(i + 1) + " | " + p.ToString() + "\n"
  }

  const CsvHeader: string := "PairNumber,MajorColor,MinorColor\n"

  /** The CSV record for the pair at index i of the listing. */
  function CsvLine(i: nat, p: ColorPair): string
  {
    NatToString(i + 1) + "," + MajorName(p.GetMajor()) + "," + MinorName(p.GetMinor()) + "\n"
  }

  function ReferenceManual(): string
  {
    Render(AllColorPairs(), ManualLine)
  }

  function CsvReport(): string
  {
    CsvHeader + Render(AllColorPairs(), CsvLine)
  }

  /** What the loop had written after j pairs is the start of what it writes in all. */
  lemma {:induction false} RenderPrefix(pairs: seq<ColorPair>, line: (nat, ColorPair) -> string, j: nat)
    requires j <= |pairs|
    ensures Render(pairs[..j], line) <= Render(pairs, line)
    decreases |pairs|
  {
    if j < |pairs| {
      var init := pairs[..|pairs| - 1];
      RenderPrefix(init, line, j);
      assert init[..j] == pairs[..j];
    } else {
      assert pairs[..j] == pairs;
    }
  }

  /** The line of every pair of the list occurs in the rendered text. */
  lemma RenderContainsLine(pairs: seq<ColorPair>, line: (nat, ColorPair) -> string, i: nat)
    requires i < |pairs|
    ensures Contains(Render(pairs, line), line(i, pairs[i]))
  {
    var head := pairs[..i + 1];
    assert head[..i] == pairs[..i];
    assert Render(head, line) == Render(pairs[..i], line) + line(i, pairs[i]);
    RenderPrefix(pairs, line, i + 1);
    ContainsEndOfPrefix(Render(pairs, line), Render(pairs[..i], line), line(i, pairs[i]));
  }

  /** When each line holds exactly one c, the text holds one c per pair of the list. */
  lemma {:induction false} RenderCount(pairs: seq<ColorPair>, line: (nat, ColorPair) -> string, c: char)
    requires forall i :: 0 <= i < |pairs| ==> Count(line(i, pairs[i]), c) == 1
    ensures Count(Render(pairs, line), c) == |pairs|
    decreases |pairs|
  {
    if pairs != [] {
      var n := |pairs| - 1;
      var init := pairs[..n];
      forall i | 0 <= i < |init|
        ensures Count(line(i, init[i]), c) == 1
      {
        assert init[i] == pairs[i];
      }
      RenderCount(init, line, c);
      CountConcat(Render(init, line), line(n, pairs[n]), c);
    }
  }

  /** A display name holds no space, comma or newline. */
  lemma WordHoldsNoSeparator(s: string)
    requires IsWord(s)
    ensures ' ' !in s && ',' !in s && '\n' !in s
  {
  }

  /** A numeral holds no comma or newline. */
  lemma NumeralHoldsNoSeparator(n: nat)
    ensures ',' !in NatToString(n) && '\n' !in NatToString(n)
  {
    var s := NatToString(n);
    assert forall k :: 0 <= k < |s| ==> IsDigit(s[k]);
  }

  /** Every manual line is a single line: one newline, at its end. */
  lemma ManualLineIsOneLine(i: nat, p: ColorPair)
    ensures var s := ManualLine(i, p); Count(s, '\n') == 1 && s[|s| - 1] == '\n'
  {
    WordHoldsNoSeparator(MajorName(p.GetMajor()));
    WordHoldsNoSeparator(MinorName(p.GetMinor()));
    NumeralHoldsNoSeparator(i + 1);
    CountTerminatedLine(NatToString(i + 1) + " | " + p.ToString());
  }

  /**
    Every CSV record is a single line whose comma-separated fields are the
    pair number, the major name and the minor name: the names hold no
    comma, so the record needs no quoting.
   */
  lemma CsvLineIsOneRecord(i: nat, p: ColorPair)
    ensures var s := CsvLine(i, p);
      Count(s, '\n') == 1 && s[|s| - 1] == '\n' &&
      Split(s[..|s| - 1], ',') == [NatToString(i + 1), MajorName(p.GetMajor()), MinorName(p.GetMinor())]
  {
    var number, major, minor := NatToString(i + 1), MajorName(p.GetMajor()), MinorName(p.GetMinor());
    var s := CsvLine(i, p);
    WordHoldsNoSeparator(major);
    WordHoldsNoSeparator(minor);
    NumeralHoldsNoSeparator(i + 1);
    CountTerminatedLine(number + "," + major + "," + minor);
    assert s[..|s| - 1] == number + [','] + major + [','] + minor;
    SplitThreeFields(number, major, minor, ',');
  }

  /** The CSV header is a single line. */
  lemma CsvHeaderIsOneLine()
    ensures Count(CsvHeader, '\n') == 1 && CsvHeader[|CsvHeader| - 1] == '\n'
  {
    var body := "PairNumber,MajorColor,MinorColor";
    assert '\n' !in body;
    CountTerminatedLine(body);
    assert CsvHeader == body + "\n";
  }

  /** The CSV header names the three columns, in the order of the record fields. */
  lemma CsvHeaderNamesColumns()
    ensures Split(CsvHeader[..|CsvHeader| - 1], ',') == ["PairNumber", "MajorColor", "MinorColor"]
  {
    var number, major, minor := "PairNumber", "MajorColor", "MinorColor";
    assert ',' !in number && ',' !in major && ',' !in minor;
    assert CsvHeader[..|CsvHeader| - 1] == number + [','] + major + [','] + minor;
    SplitThreeFields(number, major, minor, ',');
  }

  /** The manual has exactly one line per pair. */
  lemma ManualHasOneLinePerPair()
    ensures Count(ReferenceManual(), '\n') == PairCount
  {
    var all := AllColorPairs();
    forall i | 0 <= i < |all|
      ensures Count(ManualLine(i, all[i]), '\n') == 1
    {
      ManualLineIsOneLine(i, all[i]);
    }
    RenderCount(all, ManualLine, '\n');
  }

  /** The CSV table has its header line and then exactly one line per pair. */
  lemma CsvHasHeaderAndOneLinePerPair()
    ensures Count(CsvReport(), '\n') == PairCount + 1
    ensures CsvHeader <= CsvReport()
  {
    var all := AllColorPairs();
    forall i | 0 <= i < |all|
      ensures Count(CsvLine(i, all[i]), '\n') == 1
    {
      CsvLineIsOneRecord(i, all[i]);
    }
    RenderCount(all, CsvLine, '\n');
    CountConcat(CsvHeader, Render(all, CsvLine), '\n');
    CsvHeaderIsOneLine();
  }

  /** The manual lists every pair of colours, labelled with that pair's own number. */
  lemma ManualListsEveryPair(major: MajorColor, minor: MinorColor)
    ensures Contains(ReferenceManual(),
      NatToString(GetPairNumberFromColor(major, minor)) + " | " + ColorPair(major, minor).ToString() + "\n")
  {
    var n := GetPairNumberFromColor(major, minor);
    AllColorPairsComplete(major, minor);
    RenderContainsLine(AllColorPairs(), ManualLine, n - 1);
  }

  /** The CSV table holds a record for every pair of colours, with that pair's own number. */
  lemma CsvListsEveryPair(major: MajorColor, minor: MinorColor)
    ensures Contains(CsvReport(),
      NatToString(GetPairNumberFromColor(major, minor)) + "," + MajorName(major) + "," + MinorName(minor) + "\n")
  {
    var n := GetPairNumberFromColor(major, minor);
    var header, rows := CsvHeader, Render(AllColorPairs(), CsvLine);
    AllColorPairsComplete(major, minor);
    RenderContainsLine(AllColorPairs(), CsvLine, n - 1);
    ContainsAfter(header, rows, CsvLine(n - 1, ColorPair(major, minor)));
  }

  /** The manual holds each pair's line without its newline: its pair number, " | ", its display string.
      The text is passed in, pinned by the precondition, so that a caller
      can bind a literal to a variable first: that keeps the verifier from
      unfolding the literal character by character. */
  lemma ManualHoldsLabel(major: MajorColor, minor: MinorColor, entry: string)
    requires entry == NatToString(GetPairNumberFromColor(major, minor)) + " | " + ColorPair(major, minor).ToString()
    ensures Contains(ReferenceManual(), entry)
  {
    ManualListsEveryPair(major, minor);
    ContainsWithoutSuffix(ReferenceManual(), entry, "\n");
  }

  /** The CSV table holds each pair's record without its newline.
      The text is passed in, pinned by the precondition, so that a caller
      can bind a literal to a variable first: that keeps the verifier from
      unfolding the literal character by character. */
  lemma CsvHoldsRecord(major: MajorColor, minor: MinorColor, record: string)
    requires record == NatToString(GetPairNumberFromColor(major, minor)) + "," + MajorName(major) + "," + MinorName(minor)
    ensures Contains(CsvReport(), record)
  {
    CsvListsEveryPair(major, minor);
    ContainsWithoutSuffix(CsvReport(), record, "\n");
  }

  /** The first line the source's own checks look for in the manual. */
  lemma ManualKnownFirstLine()
    ensures Contains(ReferenceManual(), "1 | White Blue")
  {
    var entry := "1 | White Blue";
    ManualHoldsLabel(White, Blue, entry);
  }

  /** The last line the source's own checks look for in the manual. */
  lemma ManualKnownLastLine()
    ensures Contains(ReferenceManual(), "25 | Violet Slate")
  {
    TwentyFiveNumeral();
    var entry := "25 | Violet Slate";
    ManualHoldsLabel(Violet, Slate, entry);
  }

  lemma TwentyFiveNumeral()
    ensures NatToString(25) == "25"
  {
    assert NatToString(2) == "2";
  }

  /** The CSV table opens with its header line. */
  lemma CsvKnownHeader()
    ensures Contains(CsvReport(), "PairNumber,MajorColor,MinorColor")
  {
    CsvHasHeaderAndOneLinePerPair();
    ContainsPrefix(CsvReport(), "PairNumber,MajorColor,MinorColor", "\n");
  }

  /** The first record the source's own checks look for in the CSV table. */
  lemma CsvKnownFirstRecord()
    ensures Contains(CsvReport(), "1,White,Blue")
  {
    var entry := "1,White,Blue";
    CsvHoldsRecord(White, Blue, entry);
  }

  /** The last record the source's own checks look for in the CSV table. */
  lemma CsvKnownLastRecord()
    ensures Contains(CsvReport(), "25,Violet,Slate")
  {
    TwentyFiveNumeral();
    var entry := "25,Violet,Slate";
    CsvHoldsRecord(Violet, Slate, entry);
  }

  /** Writes "<i + 1> | <display string>" and a newline for each pair of the listing. */
  method FormatReferenceManual() returns (text: string)
    ensures text == ReferenceManual()
  {
    var pairs := GetAllColorPairs();
    text := "";
    for i := 0 to |pairs|
      invariant text == Render(pairs[..i], ManualLine)
    {
      var line := NatToString(i + 1) + " | " + pairs[i].ToString() + "\n";
      assert pairs[..i + 1][..i] == pairs[..i];
      text := text + line;
    }
    assert pairs[..|pairs|] == pairs;
  }

  /** Writes the header, then "<i + 1>,<major name>,<minor name>" and a newline for each pair. */
  method FormatCsvReport() returns (text: string)
    ensures text == CsvReport()
  {
    var pairs := GetAllColorPairs();
    text := CsvHeader;
    assert Render(pairs[..0], CsvLine) == "";
    for i := 0 to |pairs|
      invariant text == CsvHeader + Render(pairs[..i], CsvLine)
    {
      var line := NatToString(i + 1) + ","
        + MajorColorNames[MajorOrdinal(pairs[i].GetMajor())] + ","
        + MinorColorNames[MinorOrdinal(pairs[i].GetMinor())] + "\n";
      assert pairs[..i + 1][..i] == pairs[..i];
      AppendAssociative(CsvHeader, Render(pairs[..i], CsvLine), line);
      text := text + line;
    }
    assert pairs[..|pairs|] == pairs;
  }
}
