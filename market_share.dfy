/**
 * The market-share table filter of ms_piechart.py:26-54 (the same lines are
 * repeated in cpms_data.py:26-54): validate the country column, forward-fill
 * it in place, select one country's rows case-insensitively, validate the
 * share column, drop blank shares, strip '%' and parse, sort ascending.
 */
module MarketShare {
  import opened Wrappers
  import opened Text
  import opened CellValues

  const CountryColumn: string := "Country/Territory"

  /** One spreadsheet row: a column missing from the map is a blank (NaN) cell. */
  type Row = map<string, string>

  /** What pd.read_excel returns: the header and the rows, top to bottom. */
  datatype Table = Table(columns: seq<string>, rows: seq<Row>)

  function CellOf(r: Row, column: string): Option<string> {
    if column in r then Some(r[column]) else None
  }

  // ---------------------------------------------------------------------------
  // metric_column_map

  datatype ShareMetric = SubscriptionMarketShare | RevenueMarketShare

  /** metric_column_map[metric_option] */
  function ShareColumn(metric: ShareMetric, quarter: string, year: string): string {
    match metric
    case SubscriptionMarketShare => "Market Share " + quarter + " " + year
    case RevenueMarketShare => "Market Share " + quarter + " " + year
  }

  /** Both dropdown entries read the same column, "Market Share {quarter} {year}". */
  lemma ShareColumnIgnoresMetric(quarter: string, year: string)
    ensures ShareColumn(SubscriptionMarketShare, quarter, year) == ShareColumn(RevenueMarketShare, quarter, year)
    ensures ShareColumn(SubscriptionMarketShare, quarter, year) == "Market Share " + quarter + " " + year
  {
  }

  // ---------------------------------------------------------------------------
  // fillna(method="ffill")

  /** The value forward-fill gives position i: its own if present, else the filled value above. */
  function FilledAt(s: seq<Option<string>>, i: nat): Option<string>
    requires i < |s|
  {
    if s[i].Some? || i == 0 then s[i] else FilledAt(s, i - 1)
  }

  function ForwardFilled(s: seq<Option<string>>): seq<Option<string>> {
    seq(|s|, i requires 0 <= i < |s| => FilledAt(s, i))
  }

  /** A blank cell takes the nearest non-blank value above it. */
  lemma {:induction false} FilledFromNearestAbove(s: seq<Option<string>>, j: nat, i: nat)
    requires j <= i < |s| && s[j].Some?
    requires forall k :: j < k <= i ==> s[k].None?
    ensures ForwardFilled(s)[i] == s[j]
    decreases i
  {
    if i > j {
      FilledFromNearestAbove(s, j, i - 1);
    }
  }

  /** Blanks before the first non-blank cell stay blank. */
  lemma {:induction false} LeadingBlanksStay(s: seq<Option<string>>, i: nat)
    requires i < |s|
    requires forall k :: 0 <= k <= i ==> s[k].None?
    ensures ForwardFilled(s)[i] == None
    decreases i
  {
    if i > 0 {
      LeadingBlanksStay(s, i - 1);
    }
  }

  /** Forward-fill keeps the length and every non-blank cell. */
  lemma FillKeepsPresent(s: seq<Option<string>>)
    ensures |ForwardFilled(s)| == |s|
    ensures forall i :: 0 <= i < |s| && s[i].Some? ==> ForwardFilled(s)[i] == s[i]
  {
  }

  lemma {:induction false} FilledBlankMeansNoneAbove(s: seq<Option<string>>, i: nat)
    requires i < |s| && FilledAt(s, i).None?
    ensures forall k :: 0 <= k <= i ==> s[k].None?
    decreases i
  {
    if i > 0 {
      FilledBlankMeansNoneAbove(s, i - 1);
    }
  }

  lemma {:induction false} FilledAtOfFilled(s: seq<Option<string>>, i: nat)
    requires i < |s|
    ensures FilledAt(ForwardFilled(s), i) == ForwardFilled(s)[i]
    decreases i
  {
    var f := ForwardFilled(s);
    if f[i].None? && i > 0 {
      FilledBlankMeansNoneAbove(s, i);
      LeadingBlanksStay(s, i - 1);
      FilledAtOfFilled(s, i - 1);
    }
  }

  /** Filling an already filled column changes nothing. */
  lemma ForwardFillIdempotent(s: seq<Option<string>>)
    ensures ForwardFilled(ForwardFilled(s)) == ForwardFilled(s)
  {
    forall i | 0 <= i < |s|
      ensures FilledAt(ForwardFilled(s), i) == ForwardFilled(s)[i]
    {
      FilledAtOfFilled(s, i);
    }
  }

  /** The column ["US", blank, blank, "UK", blank] fills to ["US", "US", "US", "UK", "UK"]. */
  lemma ForwardFillExample()
    ensures ForwardFilled([Some("US"), None, None, Some("UK"), None])
         == [Some("US"), Some("US"), Some("US"), Some("UK"), Some("UK")]
  {
    var s := [Some("US"), None, None, Some("UK"), None];
    FilledFromNearestAbove(s, 0, 2);
    FilledFromNearestAbove(s, 3, 4);
  }

  function CountryCells(rows: seq<Row>): (col: seq<Option<string>>)
    ensures |col| == |rows|
  {
    seq(|rows|, i requires 0 <= i < |rows| => CellOf(rows[i], CountryColumn))
  }

  /** The row with its country cell set to `c` (removed for a blank). */
  function WithCountry(r: Row, c: Option<string>): Row {
    match c
    case Some(v) => r[CountryColumn := v]
    case None => r - {CountryColumn}
  }

  /** The table's rows after df["Country/Territory"].fillna(method="ffill"). */
  function FilledRows(rows: seq<Row>): seq<Row> {
    var col := ForwardFilled(CountryCells(rows));
    seq(|rows|, i requires 0 <= i < |rows| => WithCountry(rows[i], col[i]))
  }

  lemma CellOfWithCountry(r: Row, c: Option<string>, column: string)
    ensures CellOf(WithCountry(r, c), column) == if column == CountryColumn then c else CellOf(r, column)
  {
  }

  lemma WithOwnCountry(r: Row)
    ensures WithCountry(r, CellOf(r, CountryColumn)) == r
  {
    if CountryColumn in r {
      assert r[CountryColumn := r[CountryColumn]] == r;
    } else {
      assert r - {CountryColumn} == r;
    }
  }

  /** Filling rewrites the country column and leaves every other column alone. */
  lemma FilledRowsShape(rows: seq<Row>)
    ensures |FilledRows(rows)| == |rows|
    ensures CountryCells(FilledRows(rows)) == ForwardFilled(CountryCells(rows))
    ensures forall i, column :: 0 <= i < |rows| && column != CountryColumn ==>
              CellOf(FilledRows(rows)[i], column) == CellOf(rows[i], column)
  {
    var f, col := FilledRows(rows), ForwardFilled(CountryCells(rows));
    forall i | 0 <= i < |rows|
      ensures CountryCells(f)[i] == col[i]
    {
      CellOfWithCountry(rows[i], col[i], CountryColumn);
    }
  }

  /** The in-place forward fill of line 39 over the table's rows. */
  method FillCountryColumn(df: array<Row>)
    modifies df
    ensures df[..] == FilledRows(old(df[..]))
  {
    ghost var orig := df[..];
    ghost var col := ForwardFilled(CountryCells(orig));
    var i := 0;
    while i < df.Length
      invariant 0 <= i <= df.Length
      invariant forall k :: 0 <= k < i ==> df[k] == WithCountry(orig[k], col[k])
      invariant forall k :: i <= k < df.Length ==> df[k] == orig[k]
    {
      if i > 0 && CellOf(df[i], CountryColumn).None? {
        CellOfWithCountry(orig[i - 1], col[i - 1], CountryColumn);
        df[i] := WithCountry(df[i], CellOf(df[i - 1], CountryColumn));
      } else {
        WithOwnCountry(orig[i]);
      }
      i := i + 1;
    }
  }

  /** pd.read_excel's rows loaded into a frame, then the in-place fill of line 39. */
  method ReadAndFill(rows: seq<Row>) returns (filled: seq<Row>)
    ensures filled == FilledRows(rows)
  {
    var df := new Row[|rows|](i requires 0 <= i < |rows| => rows[i]);
    assert df[..] == rows;
    FillCountryColumn(df);
    filled := df[..];
  }

  // ---------------------------------------------------------------------------
  // Boolean masks: df[mask]

  /** The rows whose mask entry is true, in their original order. */
  function Select<T>(rows: seq<T>, mask: seq<bool>): seq<T>
    requires |mask| == |rows|
  {
    if rows == [] then []
    else if mask[0] then [rows[0]] + Select(rows[1..], mask[1..])
    else Select(rows[1..], mask[1..])
  }

  /** A row is selected exactly when it sits at some position the mask marks. */
  lemma {:induction false} SelectMembers<T>(rows: seq<T>, mask: seq<bool>)
    requires |mask| == |rows|
    ensures |Select(rows, mask)| <= |rows|
    ensures forall x :: x in Select(rows, mask) <==> exists i :: 0 <= i < |rows| && mask[i] && rows[i] == x
  {
    if rows != [] {
      SelectMembers(rows[1..], mask[1..]);
      forall x | x in rows[1..] ensures exists i :: 0 <= i < |rows| && rows[i] == x {
        var j :| 0 <= j < |rows[1..]| && rows[1..][j] == x;
        assert rows[j + 1] == x;
      }
      forall i | 1 <= i < |rows| ensures rows[i] == rows[1..][i - 1] && mask[i] == mask[1..][i - 1] {
      }
    }
  }

  /** df[mask] on two stacked frames is the two selections stacked, in that order. */
  lemma {:induction false} SelectAppend<T>(a: seq<T>, ma: seq<bool>, b: seq<T>, mb: seq<bool>)
    requires |ma| == |a| && |mb| == |b|
    ensures Select(a + b, ma + mb) == Select(a, ma) + Select(b, mb)
    decreases |a|
  {
    if a == [] {
      assert a + b == b && ma + mb == mb;
    } else {
      assert (a + b)[0] == a[0] && (ma + mb)[0] == ma[0];
      assert (a + b)[1..] == a[1..] + b && (ma + mb)[1..] == ma[1..] + mb;
      SelectAppend(a[1..], ma[1..], b, mb);
    }
  }

  /** One row is kept exactly when it is marked; with SelectAppend this fixes df[mask]. */
  lemma SelectSingle<T>(x: T, m: bool)
    ensures Select([x], [m]) == if m then [x] else []
  {
    assert [x][1..] == [] && [m][1..] == [];
  }

  /** mask.any() is exactly "the selection is not empty". */
  lemma {:induction false} SelectNonEmpty<T>(rows: seq<T>, mask: seq<bool>)
    requires |mask| == |rows|
    ensures Select(rows, mask) != [] <==> exists i :: 0 <= i < |mask| && mask[i]
  {
    if rows != [] {
      SelectNonEmpty(rows[1..], mask[1..]);
      if exists i :: 0 <= i < |mask| && mask[i] {
        var i :| 0 <= i < |mask| && mask[i];
        if i > 0 {
          assert mask[1..][i - 1];
        }
      }
    }
  }

  /** The first selected row is the row at the first marked position. */
  lemma {:induction false} SelectFirst<T>(rows: seq<T>, mask: seq<bool>, i: nat)
    requires |mask| == |rows| && i < |rows| && mask[i]
    requires forall j :: 0 <= j < i ==> !mask[j]
    ensures Select(rows, mask) != [] && Select(rows, mask)[0] == rows[i]
    decreases i
  {
    if i > 0 {
      assert rows[1..][i - 1] == rows[i] && mask[1..][i - 1];
      SelectFirst(rows[1..], mask[1..], i - 1);
    }
  }

  // ---------------------------------------------------------------------------
  // The country match

  /** astype(str): a blank cell reads as "nan". */
  function StoredText(c: Option<string>): string {
    match c
    case Some(s) => s
    case None => "nan"
  }

  /** One entry of the mask: stored text trimmed and lower-cased equals the key. */
  predicate Matches(c: Option<string>, key: string) {
    Lower(Strip(StoredText(c))) == key
  }

  /** The key the mask compares against: the trimmed input, lower-cased. */
  function CountryKey(countryInput: string): string {
    Lower(Strip(countryInput))
  }

  /** The match ignores case and surrounding space on both sides, and nothing else. */
  lemma MatchIsCaseInsensitive(stored: string, countryInput: string)
    ensures Matches(Some(stored), CountryKey(countryInput)) <==> Lower(Strip(stored)) == Lower(Strip(countryInput))
    ensures Matches(Some(stored), CountryKey(countryInput)) ==> |Strip(stored)| == |Strip(countryInput)|
  {
  }

  /** One boolean per row, from a per-row test. */
  function MaskBy<T>(rows: seq<T>, keep: T -> bool): (mask: seq<bool>)
    ensures |mask| == |rows|
    ensures forall i :: 0 <= i < |rows| ==> mask[i] == keep(rows[i])
  {
    seq(|rows|, i requires 0 <= i < |rows| => keep(rows[i]))
  }

  /** The mask of stacked rows is the two masks stacked. */
  lemma MaskByAppend<T>(a: seq<T>, b: seq<T>, keep: T -> bool)
    ensures MaskBy(a + b, keep) == MaskBy(a, keep) + MaskBy(b, keep)
  {
    var m, ma, mb := MaskBy(a + b, keep), MaskBy(a, keep), MaskBy(b, keep);
    forall i | 0 <= i < |m| ensures m[i] == (ma + mb)[i] {
      if i < |a| {
        assert (a + b)[i] == a[i];
      } else {
        assert (a + b)[i] == b[i - |a|];
      }
    }
  }

  /** Selecting by a per-row test keeps exactly the rows that pass it. */
  lemma SelectByMembers<T>(rows: seq<T>, keep: T -> bool)
    ensures |Select(rows, MaskBy(rows, keep))| <= |rows|
    ensures forall x :: x in Select(rows, MaskBy(rows, keep)) <==> x in rows && keep(x)
  {
    var mask := MaskBy(rows, keep);
    SelectMembers(rows, mask);
    forall x | x in rows && keep(x)
      ensures exists i :: 0 <= i < |rows| && mask[i] && rows[i] == x
    {
      var i :| 0 <= i < |rows| && rows[i] == x;
      assert mask[i];
    }
  }

  /** The test behind the mask of line 41. */
  function CountryMatcher(key: string): Row -> bool {
    r => Matches(CellOf(r, CountryColumn), key)
  }

  /** match, line 41: one entry per row. */
  function CountryMask(rows: seq<Row>, key: string): (mask: seq<bool>)
    ensures |mask| == |rows|
  {
    MaskBy(rows, CountryMatcher(key))
  }

  /** df[match]: the rows whose country cell matches, in table order. */
  function MatchedRows(rows: seq<Row>, key: string): seq<Row> {
    Select(rows, CountryMask(rows, key))
  }

  /** The selected rows are exactly the table's rows whose country cell matches. */
  lemma MatchedRowsMembers(rows: seq<Row>, key: string)
    ensures |MatchedRows(rows, key)| <= |rows|
    ensures forall r :: r in MatchedRows(rows, key) <==> r in rows && Matches(CellOf(r, CountryColumn), key)
  {
    SelectByMembers(rows, CountryMatcher(key));
  }

  /** df[match] on stacked tables is the two matches stacked, so order and repeats are kept. */
  lemma MatchedRowsAppend(a: seq<Row>, b: seq<Row>, key: string)
    ensures MatchedRows(a + b, key) == MatchedRows(a, key) + MatchedRows(b, key)
  {
    MaskByAppend(a, b, CountryMatcher(key));
    SelectAppend(a, CountryMask(a, key), b, CountryMask(b, key));
  }

  /** A single row is kept exactly when its country cell matches. */
  lemma MatchedRowsSingle(r: Row, key: string)
    ensures MatchedRows([r], key) == if Matches(CellOf(r, CountryColumn), key) then [r] else []
  {
    assert CountryMask([r], key) == [CountryMatcher(key)(r)];
    SelectSingle(r, Matches(CellOf(r, CountryColumn), key));
  }

  /** A trimmed stored name matches its lower-case spelling typed by the user. */
  lemma MatchOwnLowerSpelling(stored: string)
    requires stored == [] || (!IsSpace(stored[0]) && !IsSpace(stored[|stored| - 1]))
    ensures Matches(Some(stored), CountryKey(Lower(stored)))
  {
    StripTrimmed(stored);
    LowerTrimmed(stored);
    StripTrimmed(Lower(stored));
    LowerIdempotent(stored);
  }

  /** "united states" selects the rows stored as "United States". */
  lemma MatchExample(stored: string, typed: string)
    requires stored == "United States" && typed == "united states"
    ensures Matches(Some(stored), CountryKey(typed))
  {
    assert Lower(stored) == typed;
    MatchOwnLowerSpelling(stored);
  }

  /** match.any() is exactly "some row matches". */
  lemma MatchedRowsNonEmpty(rows: seq<Row>, key: string)
    ensures MatchedRows(rows, key) != [] <==> exists i :: 0 <= i < |rows| && Matches(CellOf(rows[i], CountryColumn), key)
  {
    var mask := CountryMask(rows, key);
    SelectNonEmpty(rows, mask);
    assert forall i :: 0 <= i < |rows| ==> mask[i] == Matches(CellOf(rows[i], CountryColumn), key);
  }

  /** The official name shown is the filled country value of the first matching row. */
  lemma FirstMatchIsFirst(rows: seq<Row>, key: string, i: nat)
    requires i < |rows| && Matches(CellOf(rows[i], CountryColumn), key)
    requires forall j :: 0 <= j < i ==> !Matches(CellOf(rows[j], CountryColumn), key)
    ensures MatchedRows(rows, key) != [] && MatchedRows(rows, key)[0] == rows[i]
  {
    var mask := CountryMask(rows, key);
    assert forall j :: 0 <= j < |rows| ==> mask[j] == Matches(CellOf(rows[j], CountryColumn), key);
    SelectFirst(rows, mask, i);
  }

  // ---------------------------------------------------------------------------
  // Blank drop, '%' strip, parse, sort

  /** The test behind notna(): the row has a value in the column. */
  function HasCell(column: string): Row -> bool {
    r => column in r
  }

  /** country_df[selected_column].notna() */
  function NotNaMask(rows: seq<Row>, column: string): (mask: seq<bool>)
    ensures |mask| == |rows|
  {
    MaskBy(rows, HasCell(column))
  }

  /** country_df[country_df[column].notna()] */
  function WithShare(rows: seq<Row>, column: string): (kept: seq<Row>)
    ensures forall i :: 0 <= i < |kept| ==> column in kept[i]
  {
    var mask := NotNaMask(rows, column);
    SelectMembers(rows, mask);
    var kept := Select(rows, mask);
    assert forall i :: 0 <= i < |kept| ==> kept[i] in kept;
    kept
  }

  /** notna filtering of stacked tables is the two filterings stacked. */
  lemma WithShareAppend(a: seq<Row>, b: seq<Row>, column: string)
    ensures WithShare(a + b, column) == WithShare(a, column) + WithShare(b, column)
  {
    MaskByAppend(a, b, HasCell(column));
    SelectAppend(a, NotNaMask(a, column), b, NotNaMask(b, column));
  }

  /** A single row is kept exactly when it has a share cell. */
  lemma WithShareSingle(r: Row, column: string)
    ensures WithShare([r], column) == if column in r then [r] else []
  {
    assert NotNaMask([r], column) == [HasCell(column)(r)];
    SelectSingle(r, column in r);
  }

  /** The kept rows are exactly the rows with a share cell. */
  lemma WithShareMembers(rows: seq<Row>, column: string)
    ensures |WithShare(rows, column)| <= |rows|
    ensures forall r :: r in WithShare(rows, column) <==> r in rows && column in r
  {
    SelectByMembers(rows, HasCell(column));
  }

  datatype ShareRow = ShareRow(row: Row, share: real)

  /** .str.rstrip('%') of the share cell. */
  function ShareText(r: Row, column: string): string
    requires column in r
  {
    RStripBy(r[column], IsPercent)
  }

  /** country_df["Share"] = ....astype(float); Err carries the text float() rejected. */
  function ParseShares(rows: seq<Row>, column: string, parse: FloatParser): (res: Result<seq<ShareRow>, string>)
    requires forall i :: 0 <= i < |rows| ==> column in rows[i]
    ensures res.Ok? <==> forall i :: 0 <= i < |rows| ==> parse(ShareText(rows[i], column)).Some?
    ensures res.Ok? ==> |res.value| == |rows|
    ensures res.Ok? ==> forall i :: 0 <= i < |rows| ==>
              res.value[i].row == rows[i] && parse(ShareText(rows[i], column)) == Some(res.value[i].share)
    ensures res.Err? ==> exists i :: 0 <= i < |rows| && parse(ShareText(rows[i], column)) == None &&
                                     res.error == ShareText(rows[i], column)
  {
    if rows == [] then Ok([])
    else
      var t := ShareText(rows[0], column);
      match parse(t)
      case None => Err(t)
      case Some(v) =>
        match ParseShares(rows[1..], column, parse)
        case Err(e) => Err(e)
        case Ok(rest) => Ok([ShareRow(rows[0], v)] + rest)
  }

  predicate SortedByShare(rs: seq<ShareRow>) {
    forall i, j :: 0 <= i < j < |rs| ==> rs[i].share <= rs[j].share
  }

  /** Places x before the first row whose share is not smaller. */
  function InsertByShare(x: ShareRow, rs: seq<ShareRow>): (r: seq<ShareRow>)
    ensures multiset(r) == multiset(rs) + multiset{x}
  {
    if rs == [] then [x]
    else if x.share <= rs[0].share then [x] + rs
    else
      assert rs == [rs[0]] + rs[1..];
      [rs[0]] + InsertByShare(x, rs[1..])
  }

  lemma SortedTail(rs: seq<ShareRow>)
    requires rs != [] && SortedByShare(rs)
    ensures SortedByShare(rs[1..])
  {
    var tail := rs[1..];
    forall i, j | 0 <= i < j < |tail| ensures tail[i].share <= tail[j].share {
      assert tail[i] == rs[i + 1] && tail[j] == rs[j + 1];
    }
  }

  /** A row no larger than the head of a sorted sequence can go in front of it. */
  lemma SortedCons(a: ShareRow, rest: seq<ShareRow>)
    requires SortedByShare(rest) && (rest == [] || a.share <= rest[0].share)
    ensures SortedByShare([a] + rest)
  {
    var r := [a] + rest;
    forall i, j | 0 <= i < j < |r| ensures r[i].share <= r[j].share {
      assert r[j] == rest[j - 1];
      if i > 0 {
        assert r[i] == rest[i - 1];
      }
    }
  }

  /** Insertion into a sorted sequence keeps it sorted. */
  lemma {:induction false} InsertKeepsSorted(x: ShareRow, rs: seq<ShareRow>)
    requires SortedByShare(rs)
    ensures SortedByShare(InsertByShare(x, rs))
    ensures InsertByShare(x, rs)[0] == x || (rs != [] && InsertByShare(x, rs)[0] == rs[0])
  {
    if rs == [] {
    } else if x.share <= rs[0].share {
      SortedCons(x, rs);
    } else {
      SortedTail(rs);
      InsertKeepsSorted(x, rs[1..]);
      var rest := InsertByShare(x, rs[1..]);
      if rest[0] != x {
        assert rs[0].share <= rs[1].share;
      }
      SortedCons(rs[0], rest);
    }
  }

  /** sort_values("Share", ascending=True): sorted, and a permutation of its input. */
  function SortByShare(rs: seq<ShareRow>): (r: seq<ShareRow>)
    ensures SortedByShare(r)
    ensures multiset(r) == multiset(rs)
  {
    if rs == [] then []
    else
      assert rs == [rs[0]] + rs[1..];
      var sorted := SortByShare(rs[1..]);
      InsertKeepsSorted(rs[0], sorted);
      InsertByShare(rs[0], sorted)
  }

  // ---------------------------------------------------------------------------
  // The pipeline

  datatype Failure = MissingColumn(column: string) | UnparsableShare(text: string)

  datatype Outcome =
    | NoQuery                                 // no country typed: nothing is computed
    | NotAvailable(country: string)           // "'{country}' is not an available country."
    | Failed(reason: Failure)                 // "Something went wrong: ..."
    | Chart(officialName: Option<string>, shares: seq<ShareRow>)

  /**
   * Every chart row is a filled row of the table that matches the country,
   * has a share cell, and whose share is that cell without its trailing '%'.
   */
  lemma ChartRowsFromCountry(rows: seq<Row>, key: string, column: string, parse: FloatParser, shares: seq<ShareRow>)
    requires ParseShares(WithShare(MatchedRows(rows, key), column), column, parse) == Ok(shares)
    ensures forall x :: x in shares ==>
              x.row in rows && Matches(CellOf(x.row, CountryColumn), key) && column in x.row &&
              parse(ShareText(x.row, column)) == Some(x.share)
  {
    var kept := WithShare(MatchedRows(rows, key), column);
    MatchedRowsMembers(rows, key);
    WithShareMembers(MatchedRows(rows, key), column);
    forall x | x in shares
      ensures x.row in rows && Matches(CellOf(x.row, CountryColumn), key) && column in x.row &&
              parse(ShareText(x.row, column)) == Some(x.share)
    {
      var i :| 0 <= i < |shares| && shares[i] == x;
      assert kept[i] in kept;
    }
  }

  /**
   * The market-share chart data for one uploaded table: the checks in source
   * order, each with its own outcome, and on success the official name and
   * the share rows sorted ascending (in no particular order among ties).
   */
  method MarketShareChart(table: Table, countryInput: string, metric: ShareMetric, quarter: string, year: string, parse: FloatParser)
    returns (out: Outcome)
    ensures Strip(countryInput) == [] ==> out == NoQuery
    ensures Strip(countryInput) != [] && CountryColumn !in table.columns ==> out == Failed(MissingColumn(CountryColumn))
    ensures Strip(countryInput) != [] && CountryColumn in table.columns ==>
              var matched := MatchedRows(FilledRows(table.rows), CountryKey(countryInput));
              var column := ShareColumn(metric, quarter, year);
              && (matched == [] ==> out == NotAvailable(Strip(countryInput)))
              && (matched != [] && column !in table.columns ==> out == Failed(MissingColumn(column)))
              && (matched != [] && column in table.columns ==>
                    match ParseShares(WithShare(matched, column), column, parse)
                    case Err(t) => out == Failed(UnparsableShare(t))
                    case Ok(shares) =>
                      && out.Chart?
                      && out.officialName == CellOf(matched[0], CountryColumn)
                      && SortedByShare(out.shares)
                      && multiset(out.shares) == multiset(shares))
  {
    var country := Strip(countryInput);
    if country == [] {
      return NoQuery;
    }
    if CountryColumn !in table.columns {
      return Failed(MissingColumn(CountryColumn));
    }
    var filled := ReadAndFill(table.rows);
    var matched := MatchedRows(filled, Lower(country));
    if matched == [] {
      return NotAvailable(country);
    }
    var officialName := CellOf(matched[0], CountryColumn);
    var column := ShareColumn(metric, quarter, year);
    if column !in table.columns {
      return Failed(MissingColumn(column));
    }
    var countryDf := WithShare(matched, column);
    var parsed := ParseShares(countryDf, column, parse);
    if parsed.Err? {
      return Failed(UnparsableShare(parsed.error));
    }
    return Chart(officialName, SortByShare(parsed.value));
  }
}
