# Telephone cable colour code

A Dafny model of the `TelCoColorCoder` core: the 25-pair telephone cable colour code.

- A pair number 1..25 names one pair of a binder group.
- Each pair has a major colour (White, Red, Black, Yellow, Violet) and a minor colour (Blue, Orange, Green, Brown, Slate).
- The pair number is the two-digit base-5 number (major ordinal, minor ordinal), plus one. The minor colour turns over first.
- Two text reports run over all 25 pairs in order: a reference manual of `"<n> | <major> <minor>"` lines, and a CSV table with a header line.

Modules, one per component of the source, plus two helper modules (`Decimal` and `Text`):

- `Palettes` (palettes.dfy): the two colour enumerations, their ordinals, and the two name tables.
- `ColorPairs` (color_pair.dfy): the immutable `ColorPair` value, with its accessors and display string.
- `Codec` (codec.dfy):
  - both conversions between pair numbers and colour pairs;
  - the specification `AllColorPairs` of the full listing;
  - the method `GetAllColorPairs`, which builds the listing with the source's two nested loops.
- `Reports` (reports.dfy):
  - a function `Render`: the text a report loop has written after visiting a list of pairs;
  - the two report texts as functions (`ReferenceManual`, `CsvReport`);
  - the two formatter methods, each proved equal to its function.
- `Decimal` (decimal.dfy): a small helper for the decimal conversion that the output stream performs when it writes `i + 1`.
- `Text` (text.dfy): the string vocabulary used to state what the reports hold: substring search (`Contains`), character counting (`Count`), splitting at a separator (`Split`).

The source's functions that loop are modelled as methods with loops and invariants. The methods are `GetAllColorPairs`, `FormatReferenceManual` and `FormatCsvReport`. The growing `std::vector` and the `std::ostringstream` become a `seq<ColorPair>` and a `string` that the loop extends. The rest is modelled by functions and lemmas: the conversions, `ColorPair` and the name lookups. The members that model source lines directly without a contract of their own are `ColorPairs.ColorPair.GetMajor`, `GetMinor` and `ToString` (main.cpp:25-29), and `Reports.ManualLine` (main.cpp:58) and `Reports.CsvLine` (main.cpp:69-71). Their contracts are the lemmas that cite those lines in the table below: `AccessorsReturnArguments`, `ToStringSplitsAtSpace`, `ToStringInjective`, `ManualLineIsOneLine` and `CsvLineIsOneRecord`.

For pair numbers 1..25, main.cpp does what its own checks at main.cpp:83-108 expect.

## Model

| member | source | states |
|---|---|---|
| `Palettes.MajorOrdinal` | main.cpp:9 | a major colour's ordinal lies below the size of the major palette |
| `Palettes.MinorOrdinal` | main.cpp:10 | a minor colour's ordinal lies below the size of the minor palette |
| `Palettes.MajorFromOrdinal` | main.cpp:34 | casting an in-range ordinal to a major colour gives the colour with that ordinal |
| `Palettes.MinorFromOrdinal` | main.cpp:35 | casting an in-range ordinal to a minor colour gives the colour with that ordinal |
| `Palettes.OrdinalsRoundTrip` | main.cpp:9-10 | casting a colour's ordinal back gives that colour, so ordinals are a bijection onto 0..4 |
| `Palettes.PaletteNamesAreWords` | main.cpp:12-16 | every entry of both name tables is a non-empty run of letters |
| `Palettes.MajorName` | main.cpp:12 | the name a major colour indexes in its table is a word (no space, comma, digit or newline) |
| `Palettes.MinorName` | main.cpp:15 | the name a minor colour indexes in its table is a word |
| `Palettes.NamesAreDistinct` | main.cpp:12-16 | no two colours of one palette share a name |
| `ColorPairs.AccessorsReturnArguments` | main.cpp:23-26 | `GetMajor` and `GetMinor` return the constructor's arguments unchanged |
| `ColorPairs.ToStringSplitsAtSpace` | main.cpp:27-29 | the display string splits at spaces into exactly two fields: the major name, then the minor name |
| `ColorPairs.ToStringInjective` | main.cpp:27-29 | two pairs with the same display string are the same pair |
| `Codec.GetColorFromPairNumber` | main.cpp:32-37 | for 1 <= n <= 25, encoding the decoded pair gives n back |
| `Codec.GetPairNumberFromColor` | main.cpp:39-41 | every pair of colours has a pair number in 1..25 |
| `Codec.ColorRoundTrip` | main.cpp:32-41 | decoding the pair number of (major, minor) gives exactly that pair |
| `Codec.PairNumberDigits` | main.cpp:33-35 | the decoded major and minor ordinals are (n - 1) div 5 and (n - 1) mod 5, both below 5 |
| `Codec.GetColorFromPairNumberInjective` | main.cpp:32-37 | distinct pair numbers decode to distinct pairs |
| `Codec.KnownPairNumbers` | main.cpp:112-116 | pair 4 is (White, Brown), pair 5 is (White, Slate), (Black, Orange) is 12 and (Violet, Slate) is 25 |
| `Codec.AllColorPairsMinorFastest` | main.cpp:45-48 | element i of the listing has major ordinal i div 5 and minor ordinal i mod 5, so the minor colour varies fastest |
| `Codec.AllColorPairsStep` | main.cpp:45-48 | of two neighbouring entries, the second keeps the major colour and has the next minor ordinal; after every fifth entry it has the next major ordinal and minor Blue |
| `Codec.AllColorPairsDistinct` | main.cpp:43-51 | the listing has 25 elements and no two are equal |
| `Codec.AllColorPairsComplete` | main.cpp:43-51 | every pair of colours is listed, at the index just before its pair number |
| `Codec.GetAllColorPairs` | main.cpp:43-51 | the nested loops return 25 pairs, element i being the pair numbered i + 1 |
| `Decimal.NatToString` | main.cpp:58 | the numeral written for a number is non-empty, all digits, one digit below 10, and with no leading zero |
| `Decimal.NatToStringRoundTrip` | main.cpp:58 | reading the written numeral back gives the number |
| `Decimal.NatToStringInjective` | main.cpp:58 | distinct numbers are written as distinct numerals |
| `Reports.RenderPrefix` | main.cpp:57-59 | what a report loop has written after j pairs is a prefix of its final text |
| `Reports.RenderContainsLine` | main.cpp:57-59 | the final text holds the line written for every pair of the list |
| `Reports.RenderCount` | main.cpp:57-72 | in either report loop, when each written line holds one newline, the text holds one newline per pair |
| `Reports.ManualLineIsOneLine` | main.cpp:58 | a manual line holds exactly one newline, at its end |
| `Reports.CsvLineIsOneRecord` | main.cpp:69-71 | a CSV record is one line whose comma-separated fields are the pair number, the major name and the minor name, so no quoting is needed |
| `Reports.CsvHeaderIsOneLine` | main.cpp:67 | the CSV header is one line |
| `Reports.CsvHeaderNamesColumns` | main.cpp:67 | the header's comma-separated fields are PairNumber, MajorColor and MinorColor, in record-field order |
| `Reports.ManualHasOneLinePerPair` | main.cpp:54-61 | the manual holds exactly 25 newlines, one per pair |
| `Reports.CsvHasHeaderAndOneLinePerPair` | main.cpp:64-74 | the CSV text starts with the header and holds exactly 26 newlines: the header and one per pair |
| `Reports.ManualListsEveryPair` | main.cpp:54-61 | every pair appears in the manual as a line labelled with its own pair number |
| `Reports.CsvListsEveryPair` | main.cpp:64-74 | every pair appears in the CSV text as a record carrying its own pair number and names |
| `Reports.ManualHoldsLabel` | main.cpp:54-61 | the manual holds each pair's line without its newline |
| `Reports.CsvHoldsRecord` | main.cpp:64-74 | the CSV text holds each pair's record without its newline |
| `Reports.ManualKnownFirstLine` | main.cpp:99 | the manual holds the line text for pair 1, White Blue, as the source checks it |
| `Reports.ManualKnownLastLine` | main.cpp:100 | the manual holds the line text for pair 25, Violet Slate, as the source checks it |
| `Reports.CsvKnownHeader` | main.cpp:106 | the CSV text holds "PairNumber,MajorColor,MinorColor" |
| `Reports.CsvKnownFirstRecord` | main.cpp:107 | the CSV text holds "1,White,Blue" |
| `Reports.CsvKnownLastRecord` | main.cpp:108 | the CSV text holds "25,Violet,Slate" |
| `Reports.FormatReferenceManual` | main.cpp:54-61 | the loop writes exactly the concatenation, over i in 0..24, of the numeral of i+1, a space-bar-space separator, the display string and a newline |
| `Reports.FormatCsvReport` | main.cpp:64-74 | the loop writes exactly the header, then "<i+1>,<major name>,<minor name>" + newline for each i in 0..24 |

## Left out

- `main` and its console printing (main.cpp:111-128) are I/O; they are not modelled.
- The `assert`-based test functions (main.cpp:78-109) are not modelled as code. Each check they make is a lemma instead: `Codec.KnownPairNumbers` and the `Reports.*Known*` lemmas.
- The palette sizes computed with `sizeof` (main.cpp:13, 16) are the lengths of the constant name sequences.
- `std::ostringstream` is reduced to string concatenation. Writing `i + 1` to it is modelled by `Decimal.NatToString`, the plain decimal numeral of a natural number.
- Out-of-range pair numbers are excluded by the precondition `1 <= pairNumber <= PairCount` (PairCount is 25). The source does no bounds check on them. `GetColorFromPairNumber` reads no name table. The C++ enums have enumerators 0..4 and no fixed underlying type, so their values range over 0..7. For 26..40 the cast gives a major value with no enumerator, and `GetPairNumberFromColor` maps it back to the same number. For n <= 0 (C++ `/` and `%` keep the sign of the dividend, so some ordinal is negative) or n >= 41 the cast itself is undefined behaviour. `ToString` on any such pair reads outside the name tables: before them for n <= 0, after them from 26 up. The source only calls `ToString` on pairs from `GetAllColorPairs`.
- Integer width: every value the core computes lies between 0 and 26. No C++ `int` or `size_t` overflow can occur, so integers are unbounded in the model.
- Division: on a non-negative zero-based pair number, C++'s truncating `/` and `%` agree with Dafny's Euclidean ones.
