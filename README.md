# Arc Item Manager — a verified model of the item logic

The Arc Item Manager is a small desktop tool for the items of a game. Each
item has a sell price, a free-text "Recycles To" field (lines such as
`2x Metal Parts`) and an optional "Keep for Quests/Workshop" note. Given a
search query, the tool lists every item whose name contains the query. For
each one it shows the direct sell price, what recycling it yields and what
that yield is worth at the components' own sell prices. It then recommends
one of three actions: KEEP the item, RECYCLE it, or SELL it.

This project models the `ItemManager` class of `Arc.py` and the
normalization the window applies to the table before handing it over:

- `Text`: the Python string operations the code relies on: `strip`,
  `lower`, `upper`, `in`, `split` on a one-character separator, and `join`.
- `Numbers`: `int(...)` on digit strings, `str(n)`, and the `{:,.0f}`
  format on whole numbers (digits grouped by three with commas).
- `Items`: the row record and the load step. Quotes and commas are stripped
  from the price, the price is read as a number (0 when it is not one), and
  the name is stripped.
- `Valuation`: `get_item_price`, the line pattern `(\d+)x\s*(.+)`,
  `calculate_recycle_value` and `get_recommendation`.
- `Search`: `search_item`, meaning the case-insensitive name filter and the
  report text.

`ItemManager` keeps one field, the table. It is set in the constructor and
never changed afterwards, so there is no class: every operation takes the
table as a parameter. The two loops of the source are methods with `while`
loops whose invariants tie them to the specification functions.
`CalculateRecycleValue` handles the sentinel fields and splits the field;
its loop, `ValueLines`, accumulates over the lines.
`SearchItem` appends one block of text per matching row. Everything else is
functions, and the lemmas state the properties.

The regular expression `(\d+)x\s*(.+)` is modelled by what `re.search` does
with it on one line. It finds the leftmost position where a run of digits is
followed by `x` and at least one more character. The quantity is that digit
run. The name is the rest of the line after the `x`, stripped. The greedy
`\s*` only moves whitespace between the two groups, and `strip` removes it
either way.

## Model

| member | source | states |
|---|---|---|
| Valuation.GetItemPrice | Arc.py:20-24 | `get_item_price`: the sell price of the first row whose lower-cased name equals the query lower-cased and stripped, else 0; its properties are stated by PriceIsFirstMatch, PriceOfUnknown, PriceIgnoresPadding and PriceIgnoresCase |
| Valuation.FirstWithKey | Arc.py:21-23 | the position found is the first row whose lower-cased name equals the key; no earlier row has that name; `|table|` means no row has it |
| Valuation.PriceIsFirstMatch | Arc.py:20-23 | when row `i` is the first whose name equals the query up to case and surrounding whitespace, the price returned is row `i`'s sell price |
| Valuation.PriceOfUnknown | Arc.py:24 | when no row's name equals the query, the price is 0 |
| Valuation.PriceIgnoresPadding | Arc.py:21 | whitespace around the queried name does not change the price |
| Valuation.PriceIgnoresCase | Arc.py:21 | upper- or lower-casing the queried name does not change the price |
| Valuation.PriceFooExample | Arc.py:21 | `get_item_price("  Foo ")` equals `get_item_price("foo")` in every table |
| Valuation.PriceOfOwnName | Arc.py:21-23 | in a loaded table, looking up a row's own name gives the price of the first row whose name equals it up to case, which is that row or an earlier one |
| Valuation.FindMatch | Arc.py:35 | the scan of `re.search(r'(\d+)x\s*(.+)', part)` from position `i`: the digit run of a match, or none; FindMatchIsLeftmost states that it finds exactly the leftmost match |
| Valuation.MatchLine | Arc.py:35-38 | the component of one line: `int(group(1))` and `group(2).strip()` of the match, or none; MatchLineIsLeftmost states what it returns |
| Valuation.DigitRunEnd | Arc.py:35 | the digit run starting at `i` ends at the first non-digit |
| Valuation.RunHasNoMatch | Arc.py:35 | no match of the pattern starts inside a maximal digit run that is not followed by `x` and one more character |
| Valuation.FindMatchIsLeftmost | Arc.py:35-36 | the scan finds a match exactly when one exists from `i` on, and the one it finds is the leftmost |
| Valuation.MatchLineIsLeftmost | Arc.py:35-38 | on a line, the pattern fails exactly when no position matches; otherwise the quantity is the leftmost match's digit group and the name is the stripped rest of the line after its `x` |
| Valuation.NotRecyclable | Arc.py:27 | the sentinel test: a missing cell, one containing `Cannot be recycled`, or one that strips to `""` or `-`; UnrecyclableRow and WidgetRecyclable use it |
| Valuation.RecycleValue | Arc.py:26-45 | the pair `calculate_recycle_value` returns, as a function of the table and the cell; CalculateRecycleValue is proved equal to it |
| Valuation.EntryText | Arc.py:43 | the display entry `"{qty}x {name} ({value:,.0f})"`; TextsAt, UnknownComponent and TwoPartsValue state it for components |
| Valuation.CalculateRecycleValue | Arc.py:26-45 | the loop returns exactly the pair of the quantity × price sum over the matching lines and one display entry per matching line, in line order; sentinel fields give `(0, [])` |
| Valuation.ValueLines | Arc.py:30-43 | the loop over the lines returns the total value and the display entries of the matching lines, in line order |
| Valuation.RecycleStep | Arc.py:34-43 | one loop step: an unmatched line changes nothing; a matched line adds its value to the total and appends its entry to the list |
| Valuation.EntriesAppend | Arc.py:33-36 | parsing concatenated lines concatenates the parsed components, so entries keep the order of their lines |
| Valuation.SkipUnmatchedLine | Arc.py:36 | a line the pattern does not match, wherever it stands, adds no component |
| Valuation.KeepMatchedLine | Arc.py:36-43 | a line the pattern matches adds exactly its component, in its place |
| Valuation.TotalValueAppend | Arc.py:41 | the total is additive over the component list |
| Valuation.UnknownComponent | Arc.py:40-43 | a component missing from the table adds nothing to the total and is listed as `"{qty}x {name} (0)"` |
| Valuation.TextsAt | Arc.py:34-43 | entry `k` of the display list is the text `"{qty}x {name} ({value})"` of component `k`, valued at the table's prices |
| Valuation.TextsStartWithDigit | Arc.py:43 | every display entry starts with a digit, namely the first digit of `str(qty)` of its component |
| Valuation.GetRecommendation | Arc.py:47-70 | KEEP exactly when a non-blank keep note is present; otherwise RECYCLE exactly when the recycle value is strictly greater than the sell price, with a positive profit in the reason; otherwise SELL; the icon and reason text of each case |
| Valuation.KeepIgnoresValues | Arc.py:51-56 | with a keep note, the decision depends on neither the sell price nor the recycle value |
| Valuation.TieSells | Arc.py:58-70 | equal values give SELL, because the comparison is strict |
| Valuation.WidgetLineParses | Arc.py:35-38 | the line `2x Part` reads as quantity 2 of `Part` |
| Valuation.WidgetRecyclable | Arc.py:27 | the field `2x Part` is not a sentinel |
| Valuation.WidgetEntries | Arc.py:33-38 | the field `2x Part` holds one component |
| Valuation.PartPrice | Arc.py:20-23 | in the example table, `Part` costs 60 |
| Valuation.TwoPartsValue | Arc.py:41-43 | two parts at 60 are worth 120 and are listed as `2x Part (120)` |
| Valuation.WidgetRecycleValue | Arc.py:26-45 | in any table where `Part` sells for 60, the field `2x Part` is worth `(120, ["2x Part (120)"])` |
| Valuation.WidgetRecommendation | Arc.py:47-70 | a widget selling for 100 with a recycle value of 120 is advised RECYCLE with `+20`; with a keep note it is advised KEEP |
| Search.SearchItem | Arc.py:72-104 | the output is the no-match message exactly when no name contains the query; otherwise it is the header followed by one block per matching row, in table order |
| Search.NameContains | Arc.py:73 | the row filter: the lower-cased name contains the lower-cased query; MatchingRowsMembers and MatchingIgnoresCase use it |
| Search.MatchingRows | Arc.py:73 | the matching rows, in table order, never more than the table has; MatchingRowsMembers and MatchingRowsAppend pin them down |
| Search.AppendBlock | Arc.py:88-102 | the lines one row adds to the output, in the order they are written; AppendBlockExtends and NoComponentsNoTotal state its properties |
| Search.Report | Arc.py:72-104 | the whole text `search_item` returns; SearchItem is proved equal to it and ReportStartsWithHeader, HeaderIsNotNoMatch and ReportInTableOrder describe it |
| Search.MatchingRowsMembers | Arc.py:73 | the filter keeps exactly the table rows whose name contains the query, ignoring case |
| Search.MatchingRowsAppend | Arc.py:73 | filtering a concatenated table concatenates the two filtered parts, so matches keep table order |
| Search.NoMatchIff | Arc.py:73-76 | there are no results exactly when no name contains the query |
| Search.MatchingIgnoresCase | Arc.py:73 | upper- or lower-casing the query does not change the results |
| Search.NoMatchQuotesQuery | Arc.py:76 | the no-match message contains the query |
| Search.HeaderIsNotNoMatch | Arc.py:75-78 | a report with results never equals the no-match message |
| Search.ReportStartsWithHeader | Arc.py:78 | with results, the report starts with the header line |
| Search.AppendBlockExtends | Arc.py:88-102 | writing a row's block only appends at the end of the output |
| Search.AppendRowsAppend | Arc.py:80-102 | the blocks of two lists of rows are the blocks of the first list, then those of the second |
| Search.ReportInTableOrder | Arc.py:73-102 | for a table split in two, the report is the header, then the blocks of the first part's matches, then those of the second part's |
| Search.NoComponentsNoTotal | Arc.py:93-97 | a block without components writes no total line: the block does not depend on the recycle value |
| Search.UnrecyclableRow | Arc.py:27-28 | a row whose field is a sentinel recycles into nothing, its block shows the "Nothing" line, and it is advised KEEP with a keep note and SELL without one |
| Search.RecycleAdvice | Arc.py:85-86 | a row is advised RECYCLE exactly when it has no keep note, its field is not a sentinel, and its parsed components are worth strictly more than its sell price |
| Items.NormalizePrice | Arc.py:113-118 | a price cell with quotes and commas removed, read as a number, else 0; NormalizeGrouped, NormalizeInvalid and NormalizeMissing state its cases |
| Items.NormalizeRow | Arc.py:113-119 | one raw row normalized: the price as NormalizePrice reads it and the name stripped |
| Items.StripQuotesAndCommas | Arc.py:116 | the result has no quote or comma, is no longer than the input, and equals the input when the input has neither; StripOne and StripAppend say that quotes and commas are deleted and nothing else changes |
| Items.StripOne | Arc.py:116 | a single quote or comma is deleted and any other character is kept; with StripAppend this fixes the result on every string, e.g. `1,0,0` becomes `100` |
| Items.StripAppend | Arc.py:116 | stripping distributes over concatenation: every other character is kept, in order |
| Items.LoadTable | Arc.py:112-119 | one item per raw row, in order, each normalized; every name is stripped |
| Items.StripGroup | Arc.py:116 | removing the separators from a grouped numeral leaves a digit run that reads back as the number |
| Items.NormalizeGrouped | Arc.py:113-118 | a price written in the `{:,.0f}` display format, bare or quoted, loads as that number |
| Items.NormalizeScattered | Arc.py:116-118 | separators anywhere are deleted before parsing: `1,0,0` loads as 100 and `12"3` as 123 |
| Items.NormalizeInvalid | Arc.py:118 | a price cell holding any character other than a digit, a quote or a comma loads as 0 |
| Items.NormalizeMissing | Arc.py:115-118 | a missing price (`None`, `nan`) and an empty one load as 0 |
| Numbers.ParseDigits | Arc.py:118 | a non-empty run of digits reads as its decimal value; anything else reads as 0 |
| Numbers.TimesIsProduct | Arc.py:41 | the quantity × price used for the total is the arithmetic product |
| Numbers.NatToStringFacts | Arc.py:43 | `str(n)` is a run of digits with no leading zero unless `n` is 0, and it reads back as `n` |
| Numbers.ParseNatToString | Arc.py:118 | printing a number and parsing it back gives the number |
| Numbers.NatToString | Arc.py:43 | `str(n)`, never empty; NatToStringFacts and ParseNatToString pin it down |
| Numbers.Group | Arc.py:43 | `format(n, ",.0f")` on a whole number; GroupFacts, StripGroup and GroupExamples state its properties |
| Numbers.GroupFacts | Arc.py:91 | the `{:,.0f}` form starts with a digit, which is `0` only for 0; a character is a comma exactly when its distance from the end is a multiple of four, and every other character is a digit; below 1000 it is `str(n)` |
| Numbers.DigitsValueAppend | Arc.py:118 | the value of a concatenated digit string is the first part's value shifted left by the second part's length, plus the second part's value |
| Numbers.Pad3 | Arc.py:91 | the groups after a comma are three digits whose value is the group's number |
| Numbers.GroupExamples | Arc.py:43 | `0`, `20` and `120` are formatted as themselves |
| Text.Lower | Arc.py:21 | `str.lower()`, of the same length as its argument; LowerOfUpper and PriceIgnoresCase use it |
| Text.Upper | Arc.py:89 | `str.upper()`, of the same length as its argument |
| Text.Contains | Arc.py:27 | Python's `sub in s`; ContainsIff, ContainsMiddle and NotContainsLonger pin it down |
| Text.Split | Arc.py:33 | `s.split(sep)` for a one-character separator, never empty; SplitJoin and SplitWithout pin it down |
| Text.Join | Arc.py:94 | `delim.join(parts)`; JoinStartsWithFirst states its first part |
| Text.SkipSpace | Arc.py:38 | the first non-whitespace position at or after `i` |
| Text.Trim | Arc.py:21 | `strip` leaves no whitespace at either end and never lengthens its argument |
| Text.TrimPadded | Arc.py:21 | `strip` ignores surrounding whitespace |
| Text.TrimIdempotent | Arc.py:119 | `strip` is idempotent |
| Text.TrimOfTrimmed | Arc.py:119 | `strip` is the identity on a string with no whitespace at its ends |
| Text.LowerOfUpper | Arc.py:73 | lower-casing an upper-cased string gives the lower-cased original |
| Text.ContainsIff | Arc.py:27 | `sub in s` holds exactly when `sub` occurs at some position of `s` |
| Text.ContainsMiddle | Arc.py:27 | a string is contained in any string it is embedded in |
| Text.NotContainsLonger | Arc.py:27 | nothing is contained in a shorter string |
| Text.SplitJoin | Arc.py:33 | the pieces of `split("\n")` contain no newline, and joining them with newlines gives back the field |
| Text.SplitWithout | Arc.py:33 | a field without a newline is a single piece |
| Text.JoinStartsWithFirst | Arc.py:94 | a joined non-empty list starts with its first element |

## Left out

- The Qt window: the input field, the buttons, the text area, the fonts, and the dialog shown for a blank query (`Arc.py` from line 107 on, apart from the load step). All of it is I/O.
- `data.py`, the item dataset itself. It is not part of this model; the load step takes the raw rows as a parameter.
- pandas. The table is a sequence of rows; `str.lower()` on the column, `iloc[0]`, `iterrows` and `empty` are written out directly.
- Search.NameContains: `str.contains(query, case=False)` is modelled as plain substring search on lower-cased text. The query is not read as a regular expression, so its metacharacters are taken literally. A malformed pattern such as `(` makes the source raise `re.error` in `search_item` (Arc.py:73); the model returns a report instead.
- Numbers.ParseDigits: models the `pd.to_numeric` grammar only for plain digit runs. Signs, decimal points, exponents and surrounding blanks are read as 0 here, whereas pandas would parse them as numbers.
- Text.IsSpace: Python's whitespace is modelled only below U+0100.
- Text.Lower and Text.Upper: case mapping is ASCII only, with no Unicode case folding.
- Numbers.IsDigit: `\d` and `int(...)` are modelled on ASCII digits only, not Unicode decimal digits.
- Numbers.Group: prices are whole numbers. Floating point and the rounding of `{:,.0f}` on fractional values are left out.
- Numeric width: prices, `qty * price` and `total_value` are unbounded naturals here. After `pd.to_numeric(...).fillna(0)` (Arc.py:118) the source holds them as int64, or as float64 when some cell failed to parse. So it wraps past 2^63 or rounds past 2^53, a quantity beyond int64 can raise OverflowError, and `{:,.0f}` converts an integer to float before printing. The model is exact where the source is limited to int64/float64.
- The emoji in the report and in the decision icons are string constants. String width and rendering are out of scope.
- Valuation.MatchLineIsLeftmost: is stated only for lines without a newline. Only those reach the pattern, because the field is split on newlines first.
- `pd.isna` on a cell that is not a string, and `str(...)` of it: a cell is either missing or a string.
- Mutating the table after construction. The source never does it, so the table is passed as a parameter rather than held in a class.
