# MS-piechart core in Dafny

MS-piechart consists of two Streamlit scripts. `ms_piechart.py` draws the market
share of one country's operators. `cpms_data.py` holds the same market-share app
plus a company-profile comparator. This project models the logic inside them,
without the widgets, file upload or plotting:

- **Period labels** (`periods.dfy`). Labels have the form `"Q<n> <year>"`. The
  module models the 32-entry quarter dropdown (Q1 2019 … Q4 2026), `get_prev_q`
  (step back one quarter, Q1 wrapping to Q4 of the year before), `get_prev_y`
  (same quarter token, year minus one) and the QoQ/YoY choice of the comparison
  period. A label that Python could not take apart (wrong token count, short
  quarter token, non-integer year) raises. The model returns `None` there.
- **Cell values** (`cell_values.dfy`). This is the live `parse_val`. Absent or
  NaN cells give a missing value and numbers pass through. A text cell is
  trimmed. Then either its trailing `%` characters are dropped (commas are
  kept), or, when it holds no `%`, every comma is removed. The result goes to
  `float()`. `float()` itself is a parameter `parse: string -> Option<real>`,
  and `None` stands for `ValueError`.
- **Comparison rows** (`comparison.dfy`). This covers the metric dropdown
  (allow-listed metrics found in the first file, in allow-list order), the
  operator name cut out of the file name, the two guarded cell reads, the
  guarded percent change, and the loop that builds one row per uploaded file
  in upload order. The loop has no `try`, so the first `float()` failure ends
  the whole run. The model returns that error.
- **Market-share filter** (`market_share.dfy`). The pipeline checks the
  `Country/Territory` column and forward-fills it in place (an array of rows
  updated one row at a time). It then selects rows by a trimmed,
  case-insensitive, exact country match and records the first match's
  official name. It checks the `Market Share {quarter} {year}` column, drops
  blank shares, strips trailing `%`, parses, and sorts ascending.
  - A blank country cell reads as `"nan"` after `astype(str)`. So the input
    "nan" matches rows that stay blank because no value lies above them. The
    model keeps this.
  - The sort is only specified as sorted and a permutation, because pandas'
    default sort is not stable.
- **Python string helpers** (`text.dfy`). These are `str.strip` (full
  `str.isspace` set), `rstrip`, `replace(',', '')`, `split()`, ASCII `lower()`,
  `int()` and `str()` of integers.

`wrappers.dfy` holds the `Option` and `Result` types.

`cpms_data.py:36-54` repeats `ms_piechart.py:36-54` line for line. The rows
below cite the `ms_piechart.py` copy.

## Model

| member | source | states |
|---|---|---|
| Text.IsSpace | cpms_data.py:207 | the whitespace set of Python's `str.isspace`, which `strip()` and `split()` drop: the ASCII controls 9-13 and 28-31, space, U+0085, U+00A0, U+1680, U+2000-U+200A, U+2028, U+2029, U+202F, U+205F and U+3000 |
| Text.Strip | cpms_data.py:207 | `strip()` leaves no whitespace at either end and never lengthens the text; `StripOf` fixes its result |
| Text.RStripBy | ms_piechart.py:53 | `rstrip(chars)` keeps a prefix, every dropped character is in the class, and the kept text does not end in it |
| Text.StripOf | cpms_data.py:207 | `strip()` removes exactly a leading and a trailing whitespace run around a core that has no whitespace at its ends |
| Text.LStripBy | cpms_data.py:207 | the leading half of `strip()`: what it drops is a prefix of characters in the class, and the kept text does not start with one |
| Text.LStripPast | cpms_data.py:207 | stripping with a character class removes a leading run of that class and stops at the first other character |
| Text.RStripPast | ms_piechart.py:53 | `rstrip` removes a trailing run of the stripped class and stops at the last other character |
| Text.RemoveAll | cpms_data.py:210 | `replace(',', '')` leaves no comma in its result |
| Text.RemoveAllKeepsOthers | cpms_data.py:210 | removing commas keeps every other character exactly as many times as before |
| Text.RemoveAllAbsent | cpms_data.py:210 | a text without a comma is returned unchanged |
| Text.RemoveAllAppend | cpms_data.py:210 | comma removal distributes over concatenation |
| Text.RemoveSeparator | cpms_data.py:210 | a comma between two comma-free parts is dropped, leaving the two parts joined |
| Text.LowerChar | ms_piechart.py:41 | `lower()` on one character maps A..Z to a..z by the fixed ASCII offset and leaves every other character unchanged |
| Text.Lower | ms_piechart.py:41 | `lower()` keeps the length and lower-cases each character by `LowerChar` |
| Text.LowerCharSpace | ms_piechart.py:41 | lower-casing a character never changes whether it is whitespace |
| Text.LowerTrimmed | ms_piechart.py:41 | lower-casing a text without surrounding whitespace keeps it without |
| Text.StripTrimmed | ms_piechart.py:41 | `strip()` leaves a text without surrounding whitespace as it is |
| Text.LowerIdempotent | ms_piechart.py:41 | lower-casing twice is the same as lower-casing once |
| Text.Split | cpms_data.py:150 | every token of `split()` is non-empty and holds no whitespace; `SplitWord`, `SplitTwoWords` and `SplitTwoWordsAnySpace` fix the tokens for one word and for two words |
| Text.SplitWord | cpms_data.py:150 | `split()` of one whitespace-free word is that word alone |
| Text.SplitTwoWords | cpms_data.py:150 | `split()` of two whitespace-free words joined by one space gives exactly those two tokens |
| Text.SplitSkipsSpace | cpms_data.py:150 | `split()` skips leading whitespace |
| Text.SplitWordThen | cpms_data.py:150 | a word followed by whitespace or the end of the text is the next token |
| Text.SplitTwoWordsAnySpace | cpms_data.py:150 | two words with any whitespace around them and any non-empty whitespace run between them split into exactly those two words |
| Text.IntToString | cpms_data.py:142 | `str()` of an integer is non-empty and holds no whitespace; `IntRoundTrip` reads it back |
| Text.ParseInt | cpms_data.py:151 | `int()` of a token succeeds exactly when it is one or more ASCII digits, optionally after one `+` or `-`; `IntRoundTrip` gives its value on every `str()` of an integer |
| Text.NatToStringValue | cpms_data.py:151 | the decimal digits `str()` writes for a natural number read back to that number |
| Text.IntRoundTrip | cpms_data.py:151 | `int(str(i)) == i` for every integer, negative ones included |
| Periods.PrevQuarter | cpms_data.py:149-153 | `get_prev_q` fails unless the label splits into exactly two tokens, `int()` accepts the year token and the quarter token has a digit at index 1 |
| Periods.PrevYear | cpms_data.py:155-157 | `get_prev_y` fails unless the label splits into exactly two tokens and `int()` accepts the year token |
| Periods.PreviousPeriod | cpms_data.py:159 | QoQ compares against `get_prev_q` of the current label, YoY against `get_prev_y` |
| Periods.PreviousPeriodOfLabel | cpms_data.py:149-159 | the comparison period of "Qn y" is Q4 (y-1) for Q1 and Q(n-1) y otherwise under QoQ, and Qn (y-1) under YoY |
| Periods.Label | cpms_data.py:142 | the label f"Q{q} {y}"; `LabelTokens` gives its two tokens and `LabelInjective` that distinct quarters or years give distinct labels |
| Periods.LabelSplits | cpms_data.py:142 | a label `Q<digit> <year>` splits into its quarter token and its year |
| Periods.LabelTokens | cpms_data.py:149-152 | the two tokens of a label, and `int()` of its year token gives the year back |
| Periods.PrevQuarterOfLabelTokens | cpms_data.py:149-153 | any text that splits like the label of quarter n of year y steps back to Q4 of y-1 for n = 1, else to quarter n-1 of y |
| Periods.PrevQuarterOfLabel | cpms_data.py:149-153 | `get_prev_q("Q1 y") == "Q4 (y-1)"` and `get_prev_q("Qn y") == "Q(n-1) y"` for n = 2..4 |
| Periods.PrevYearKeepsQuarter | cpms_data.py:155-157 | `get_prev_y` keeps any whitespace-free quarter token verbatim and subtracts exactly one from the year |
| Periods.PrevYearOfLabel | cpms_data.py:155-157 | `get_prev_y("Qn y") == "Qn (y-1)"` |
| Periods.OneTokenRejected | cpms_data.py:150 | a one-token label such as "Q3" makes both functions fail |
| Periods.LabelInjective | cpms_data.py:142 | two labels with single-digit quarters are equal only when quarter and year are equal |
| Periods.YearRange | cpms_data.py:141 | `range(lo, hi)`; `YearRangeAt` gives its length and entries |
| Periods.YearRangeAt | cpms_data.py:141 | `range(lo, hi)` has hi - lo entries and entry k is lo + k |
| Periods.ConcatAt | cpms_data.py:142 | with blocks of four, entry j of block k of the flattened list sits at position 4k + j |
| Periods.ConcatLength | cpms_data.py:142 | flattening blocks of four gives four entries per block |
| Periods.YearOptionsAt | cpms_data.py:142 | the inner loop gives Q1..Q4 of one year, in that order |
| Periods.OptionsFor | cpms_data.py:142 | the comprehension over a list of years; `OptionsForAt` and `OptionsForLength` give its entries and length |
| Periods.OptionsForAt | cpms_data.py:142 | the comprehension has 4 entries per year, and quarter q of the k-th year sits at position 4k + q - 1 |
| Periods.OptionsForLength | cpms_data.py:142 | the comprehension has 4 entries per year |
| Periods.RangeOptionAt | cpms_data.py:141-142 | over the years lo..hi-1, quarter q of year lo + k sits at position 4k + q - 1 |
| Periods.Position | cpms_data.py:142 | helper: any index i splits as 4k + q - 1 with 1 <= q <= 4, the form the dropdown lemmas use |
| Periods.PrevQuarterStep | cpms_data.py:149-153 | in any list, a label followed by its quarter predecessor stand in the `get_prev_q` relation |
| Periods.PrevYearStep | cpms_data.py:155-157 | in any list, a label and the same quarter of the year before stand in the `get_prev_y` relation |
| Periods.NeighbourLabels | cpms_data.py:141-142 | the entry just before position i > 0 is the previous quarter of the entry at i |
| Periods.YearApartLabels | cpms_data.py:141-142 | the entry four places before position i is the same quarter one year earlier |
| Periods.RangeOptionsChain | cpms_data.py:141-153 | over any year range, `get_prev_q` of every entry but the first is the entry just before it |
| Periods.RangeOptionsYearChain | cpms_data.py:141-157 | over any year range, `get_prev_y` of every entry from the second year on is the entry four places before it |
| Periods.QuarterOptions | cpms_data.py:141-142 | the dropdown over 2019..2026; `QuarterOptionAt`, `QuarterOptionsChain` and `QuarterOptionsYearChain` state its contents |
| Periods.QuarterOptionAt | cpms_data.py:141-142 | the dropdown has 32 labels, year-major, Q1..Q4 within a year, from Q1 2019 to Q4 2026 |
| Periods.QuarterOptionsChain | cpms_data.py:141-153 | in the dropdown, `get_prev_q` of every label but the first is the label just before it |
| Periods.QuarterOptionsYearChain | cpms_data.py:141-157 | in the dropdown, `get_prev_y` of every label from Q1 2020 on is the label four places before it |
| Periods.RangeOptionsFrom | cpms_data.py:141-142 | no label of the years lo..hi-1 names a year before lo |
| Periods.FirstOptionPrev | cpms_data.py:141-153 | QoQ from the first label, Q1 2019, gives Q4 2018, which is not itself in the dropdown |
| CellValues.ParseVal | cpms_data.py:203-211 | missing exactly for an absent or NaN cell; a number unchanged; a text cell gives `float()` of its cleaned text, and fails exactly when `float()` rejects that text, reporting it |
| CellValues.Cleaned | cpms_data.py:207-210 | the text handed to `float()`; `CleanedShape` and the lemmas below fix it |
| CellValues.CleanedShape | cpms_data.py:206-210 | after trimming, a text with `%` keeps a prefix and loses only a trailing run of `%`; one without `%` comes out with no comma and no `%` |
| CellValues.CleanedIgnoresSurroundingSpace | cpms_data.py:207 | surrounding whitespace never changes the text handed to `float()` |
| CellValues.CleanedPercent | cpms_data.py:207-209 | a value followed by one or more `%`, with any whitespace around it, is cleaned to the value itself, commas included |
| CellValues.CleanedPlain | cpms_data.py:207-210 | without `%`, the trimmed text loses exactly its commas; a comma-free text is unchanged |
| CellValues.CleanedStrippedPlain | cpms_data.py:210 | a trimmed text without `%` loses exactly its commas |
| CellValues.ThousandsSeparator | cpms_data.py:210 | a thousands separator between two comma-free parts is dropped ("1,234.5" is cleaned to "1234.5") |
| Comparison.KeepPresent | cpms_data.py:181 | the comprehension keeps exactly the entries found in the index, as a subsequence of the input |
| Comparison.AvailableMetrics | cpms_data.py:162-181 | the dropdown holds exactly the allow-listed metrics present in the first file, in allow-list order |
| Comparison.MetricMenu | cpms_data.py:136-185 | no upload stops the run; an empty dropdown stops it with "no valid metrics"; otherwise the dropdown is the available list |
| Comparison.RemoveSuffix | cpms_data.py:215 | `removesuffix(".xlsx")` drops the suffix exactly when present and leaves other names unchanged |
| Comparison.CompanyName | cpms_data.py:215-217 | the name is the suffix-less file name minus its first 22 characters, and is empty when that name is shorter |
| Comparison.PrefixLength | cpms_data.py:216-217 | helper: the constant prefix is 22 characters long, the slice bound of line 217 |
| Comparison.CompanyNameOfProfileFile | cpms_data.py:215-217 | "Company Profile Sheet X.xlsx" yields X |
| Comparison.CompanyNameIgnoresPrefixText | cpms_data.py:215-217 | any 22 leading characters are dropped, whether or not they spell the prefix |
| Comparison.At | cpms_data.py:221-222 | the cell read is `None` when the metric or the period label is missing, NaN for a blank cell, and the cell otherwise |
| Comparison.PctChange | cpms_data.py:226 | defined exactly when prev is present and nonzero and curr is present, and then it is the growth rate that takes prev to curr |
| Comparison.RowFor | cpms_data.py:215-233 | a file's row carries that file's company name and the percent change of its two values |
| Comparison.RowForValues | cpms_data.py:219-233 | a row fails exactly when one of its two cells fails to parse, reporting the current period's text when it fails (it is parsed first) and else the previous period's; otherwise it holds the two parsed values |
| Comparison.MissingMetricRow | cpms_data.py:221-226 | a sheet without the metric gives a row of missing values, not an error |
| Comparison.MissingPrevPeriodRow | cpms_data.py:222-226 | a sheet without the previous period gives a missing previous value and no change |
| Comparison.MissingCurrPeriodRow | cpms_data.py:221-226 | a sheet without the current period gives a missing current value and no change |
| Comparison.PctChangeExamples | cpms_data.py:226 | a zero previous value gives no change, never 0; 50 to 75 is +50 |
| Comparison.RowResults | cpms_data.py:213-233 | one outcome per uploaded file |
| Comparison.Collect | cpms_data.py:213-233 | all values in order or the first error; `CollectValues` and `CollectFirstError` state it |
| Comparison.CollectValues | cpms_data.py:213-233 | appending until the first error succeeds exactly when every step succeeds, and then keeps all values in order |
| Comparison.CollectFirstError | cpms_data.py:213-233 | appending until the first error reports the error of the first failing step |
| Comparison.CompareAll | cpms_data.py:213-233 | the outcome of the comparison loop; `CompareAllRows` and `CompareAllFirstError` state it |
| Comparison.CompareAllRows | cpms_data.py:213-233 | the comparison succeeds exactly when every file's row does, with one row per file in upload order, each built from its own file alone |
| Comparison.CompareAllFirstError | cpms_data.py:213-233 | a failed comparison reports the error of the first file whose cell does not parse |
| Comparison.CompareFiles | cpms_data.py:213-233 | the loop that appends one row per file returns the outcome described by the two lemmas above |
| MarketShare.ShareColumn | ms_piechart.py:26-29 | the share column a metric option reads; `ShareColumnIgnoresMetric` states it |
| MarketShare.ShareColumnIgnoresMetric | ms_piechart.py:26-29 | both metric options read the same column, "Market Share {quarter} {year}" |
| MarketShare.FilledAt | ms_piechart.py:39 | the forward-filled value of one cell; `FilledFromNearestAbove` and `LeadingBlanksStay` state it |
| MarketShare.ForwardFilled | ms_piechart.py:39 | `ffill()` of one column; the lemmas below state its contents |
| MarketShare.FilledFromNearestAbove | ms_piechart.py:39 | a blank cell takes the nearest non-blank value above it |
| MarketShare.LeadingBlanksStay | ms_piechart.py:39 | blanks before the first non-blank cell stay blank |
| MarketShare.FillKeepsPresent | ms_piechart.py:39 | forward-fill keeps the column's length and every non-blank cell |
| MarketShare.FilledBlankMeansNoneAbove | ms_piechart.py:39 | a cell still blank after filling has only blanks above it |
| MarketShare.FilledAtOfFilled | ms_piechart.py:39 | filling an already filled column leaves each cell as it is |
| MarketShare.ForwardFillIdempotent | ms_piechart.py:39 | forward-filling twice equals forward-filling once |
| MarketShare.ForwardFillExample | ms_piechart.py:39 | ["US", blank, blank, "UK", blank] fills to ["US", "US", "US", "UK", "UK"] |
| MarketShare.CountryCells | ms_piechart.py:39 | the country column has one cell per row |
| MarketShare.CellOfWithCountry | ms_piechart.py:39 | rewriting a row's country cell changes no other column |
| MarketShare.WithOwnCountry | ms_piechart.py:39 | writing a row's own country value back leaves the row unchanged |
| MarketShare.FilledRows | ms_piechart.py:39 | the frame after filling its country column; `FilledRowsShape` states it |
| MarketShare.FilledRowsShape | ms_piechart.py:39 | filling rewrites only the country column, into its forward-filled version |
| MarketShare.FillCountryColumn | ms_piechart.py:39 | the in-place fill leaves the frame's rows equal to the filled rows of the original frame |
| MarketShare.ReadAndFill | ms_piechart.py:33-39 | loading the rows into a frame and filling them in place gives the filled rows |
| MarketShare.Select | ms_piechart.py:46 | `df[mask]`; `SelectAppend` and `SelectSingle` determine it on every input |
| MarketShare.SelectMembers | ms_piechart.py:46 | `df[mask]` holds exactly the rows whose mask entry is true (as a set), and no more rows than the frame |
| MarketShare.SelectAppend | ms_piechart.py:46 | `df[mask]` of two stacked frames is the two selections stacked, so every marked row is kept, in order, repeats included |
| MarketShare.SelectSingle | ms_piechart.py:46 | a one-row frame keeps its row exactly when it is marked |
| MarketShare.MaskBy | ms_piechart.py:41 | a mask built by a per-row test has one entry per row, entry i being the test on row i |
| MarketShare.MaskByAppend | ms_piechart.py:41 | the mask of two stacked frames is the two masks stacked |
| MarketShare.SelectByMembers | ms_piechart.py:46 | selecting by a per-row test keeps exactly the rows that pass it (as a set) |
| MarketShare.SelectNonEmpty | ms_piechart.py:42 | `mask.any()` is exactly "the selection is not empty" |
| MarketShare.SelectFirst | ms_piechart.py:45 | the first selected row is the row at the first true mask entry |
| MarketShare.StoredText | ms_piechart.py:41 | `astype(str)`: a blank cell reads as "nan"; `MatchIsCaseInsensitive` states the match built on it |
| MarketShare.Matches | ms_piechart.py:41 | one entry of the match mask; `MatchIsCaseInsensitive` states it |
| MarketShare.CountryKey | ms_piechart.py:41 | the trimmed, lower-cased input; `MatchIsCaseInsensitive` states the match against it |
| MarketShare.MatchIsCaseInsensitive | ms_piechart.py:14-41 | a stored country matches exactly when, trimmed and lower-cased, it equals the trimmed lower-cased input; an exact match, so never a prefix |
| MarketShare.CountryMask | ms_piechart.py:41 | the match mask has one entry per row |
| MarketShare.MatchOwnLowerSpelling | ms_piechart.py:41 | a stored name without surrounding whitespace matches its lower-case spelling typed by the user |
| MarketShare.MatchExample | ms_piechart.py:41 | "united states" matches the stored "United States" |
| MarketShare.MatchedRows | ms_piechart.py:46 | `df[match]`; `MatchedRowsAppend` and `MatchedRowsSingle` determine it |
| MarketShare.MatchedRowsAppend | ms_piechart.py:41-46 | matching stacked tables gives the two matches stacked, so every matching row is kept, in table order, repeats included |
| MarketShare.MatchedRowsSingle | ms_piechart.py:41-46 | a single row is kept exactly when its country cell matches |
| MarketShare.MatchedRowsMembers | ms_piechart.py:41-46 | the selected rows are exactly the filled rows whose country matches (as a set) |
| MarketShare.MatchedRowsNonEmpty | ms_piechart.py:41-43 | "not an available country" is reported exactly when no row matches |
| MarketShare.FirstMatchIsFirst | ms_piechart.py:45-46 | the official name comes from the first matching row in table order |
| MarketShare.NotNaMask | ms_piechart.py:52 | the `notna()` mask has one entry per row |
| MarketShare.WithShare | ms_piechart.py:52 | every kept row has a share cell |
| MarketShare.WithShareAppend | ms_piechart.py:52 | dropping blank shares from stacked tables gives the two results stacked, so every row with a share is kept, in order, repeats included |
| MarketShare.WithShareSingle | ms_piechart.py:52 | a single row is kept exactly when it has a share cell |
| MarketShare.WithShareMembers | ms_piechart.py:52 | the kept rows are exactly the matched rows with a non-blank share cell (as a set) |
| MarketShare.ShareText | ms_piechart.py:53 | a share cell with trailing `%` removed; `RStripBy` states it |
| MarketShare.ParseShares | ms_piechart.py:53 | `astype(float)` succeeds exactly when every stripped share parses; each row then keeps its own parsed share; otherwise it reports a text that failed |
| MarketShare.InsertByShare | ms_piechart.py:54 | one insertion step adds exactly the new row |
| MarketShare.InsertKeepsSorted | ms_piechart.py:54 | inserting into rows sorted by share keeps them sorted |
| MarketShare.SortedTail | ms_piechart.py:54 | the tail of a sorted sequence is sorted |
| MarketShare.SortedCons | ms_piechart.py:54 | a row no larger than the head of a sorted sequence can go in front of it |
| MarketShare.SortByShare | ms_piechart.py:54 | `sort_values("Share")` gives rows sorted ascending by share, a permutation of its input |
| MarketShare.ChartRowsFromCountry | ms_piechart.py:41-53 | every chart row is a matching filled row with a share cell, and its share is that cell without trailing `%`, parsed |
| MarketShare.MarketShareChart | ms_piechart.py:31-54 | each check fires in source order with its own outcome (no query, missing country column, unknown country, missing share column, unparsable share); on success the chart holds the first match's name and the parsed kept rows, sorted ascending |

## Left out

- Streamlit widgets, file upload, `pd.read_excel`, `st.error`/`st.info`/`st.pyplot` and the mode dispatch in `main` (`cpms_data.py:297-319`) are I/O. The model takes the uploaded files, the table and the widget values as parameters. Error messages are constructors, not formatted strings.
- MarketShare.MarketShareChart: a missing upload (`if file and country`) is not modelled. The table is always given, and only an empty country stops the run.
- All matplotlib rendering is presentation over floats and trigonometry. This covers the pie `autopct` threshold and label placement (`ms_piechart.py:56-111`) and the bar geometry, twin axis and percent axis formatter (`cpms_data.py:236-295`).
- Python's `float()` grammar is a parameter (`FloatParser`). Exponents, `inf`, `nan` and underscores therefore carry no special meaning in the model, and a text that parses to NaN is a number here.
- Floating-point arithmetic is modelled as `real`, so rounding in the percent change is not captured.
- The first `parse_val` (`cpms_data.py:187-199`) is shadowed by the second definition and never runs. Its "percent metrics times 100" rule and `percent_metrics`, which is used only for axis formatting, are not modelled.
- Per-file error isolation is not modelled, because the code has none. The loop at `cpms_data.py:213-233` has no `try`, so the first `float()` failure aborts the run. The model follows the code.
- pandas details are not modelled: dtype coercion, `.str` on a column that is not text, duplicate index labels, and which of several tied rows `sort_values` puts first. The sort is specified only as sorted and a permutation.
- Text.Lower: `str.lower()` is modelled for ASCII letters only. Other characters are left unchanged.
- Text.ParseInt: `int()` is modelled for an optional sign and ASCII digits. Underscores, non-ASCII digits and surrounding whitespace are not accepted. No token produced by `split()` has surrounding whitespace.
