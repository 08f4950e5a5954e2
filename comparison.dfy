/**
 * The company-profile comparator (cpms_data.py:136-233): which metrics the
 * dropdown offers, the operator name taken from each file name, the two cells
 * read from each sheet, and the loop that builds one comparison row per file.
 */
module Comparison {
  import opened Wrappers
  import opened Text
  import opened CellValues

  /**
   * One uploaded workbook read with index_col=0: the metric names down the
   * index, the period labels across the columns, and the cells. A pair of an
   * index entry and a column with no entry in `cells` is a blank cell, which
   * pandas reads as NaN.
   */
  datatype Sheet = Sheet(index: seq<string>, columns: seq<string>, cells: map<(string, string), Cell>)

  datatype UploadedFile = UploadedFile(name: string, sheet: Sheet)

  datatype ComparisonRow = ComparisonRow(
    company: string,
    prev: Option<real>,
    curr: Option<real>,
    pctChange: Option<real>)

  // ---------------------------------------------------------------------------
  // Metric dropdown

  /** The allow-list `desired`, in its order. */
  const Desired: seq<string> := [
    "Total subscriptions",
    "4G penetration", "5G penetration",
    "4G subscriptions", "5G subscriptions",
    "Market share - subscriptions",
    "Service revenues", "Data revenues", "Data share of service revenues",
    "ARPU", "Data ARPU", "Data share of ARPU",
    "CAPEX", "CAPEX to revenue ratio", "CAPEX per subscriber"
  ]

  /** `r` can be obtained from `xs` by deleting elements. */
  predicate Subsequence(r: seq<string>, xs: seq<string>)
    decreases |xs|
  {
    r == [] || (xs != [] && if r[0] == xs[0] then Subsequence(r[1..], xs[1..]) else Subsequence(r, xs[1..]))
  }

  /** [m for m in xs if m in index] */
  function KeepPresent(xs: seq<string>, index: seq<string>): (r: seq<string>)
    ensures forall m :: m in r <==> m in xs && m in index
    ensures Subsequence(r, xs)
  {
    if xs == [] then []
    else if xs[0] in index then [xs[0]] + KeepPresent(xs[1..], index)
    else KeepPresent(xs[1..], index)
  }

  /** `available`: the allow-listed metrics that the first file's index holds, in allow-list order. */
  function AvailableMetrics(firstIndex: seq<string>): (r: seq<string>)
    ensures forall m :: m in r <==> m in Desired && m in firstIndex
    ensures Subsequence(r, Desired)
  {
    KeepPresent(Desired, firstIndex)
  }

  datatype MenuError = NoFilesUploaded | NoValidMetrics

  /**
   * The guards before the comparison: nothing happens without an upload
   * (cpms_data.py:136-138), and a first file without any allow-listed metric
   * stops the run (cpms_data.py:180-185).
   */
  function MetricMenu(files: seq<UploadedFile>): (r: Result<seq<string>, MenuError>)
    ensures r == Err(NoFilesUploaded) <==> files == []
    ensures r == Err(NoValidMetrics) <==> files != [] && AvailableMetrics(files[0].sheet.index) == []
    ensures r.Ok? ==> r.value != [] && r.value == AvailableMetrics(files[0].sheet.index)
  {
    if files == [] then Err(NoFilesUploaded)
    else
      var available := AvailableMetrics(files[0].sheet.index);
      if available == [] then Err(NoValidMetrics) else Ok(available)
  }

  // ---------------------------------------------------------------------------
  // Company name

  const Suffix: string := ".xlsx"
  const ProfilePrefix: string := "Company Profile Sheet "

  /** Python's str.removesuffix. */
  function RemoveSuffix(s: string, suffix: string): (r: string)
    ensures |suffix| <= |s| && s[|s| - |suffix|..] == suffix ==> r + suffix == s
    ensures !(|suffix| <= |s| && s[|s| - |suffix|..] == suffix) ==> r == s
  {
    if |suffix| <= |s| && s[|s| - |suffix|..] == suffix then s[..|s| - |suffix|] else s
  }

  /**
   * name.removesuffix(".xlsx")[len(prefix):]: the file name without its
   * extension, minus its first 22 characters, whatever they are; a Python
   * slice past the end is empty.
   */
  function CompanyName(fileName: string): (r: string)
    ensures var base := RemoveSuffix(fileName, Suffix);
            |r| == (if |base| < |ProfilePrefix| then 0 else |base| - |ProfilePrefix|) &&
            r == base[|base| - |r|..]
  {
    var base := RemoveSuffix(fileName, Suffix);
    if |base| < |ProfilePrefix| then [] else base[|ProfilePrefix|..]
  }

  lemma PrefixLength()
    ensures |ProfilePrefix| == 22
  {
  }

  /** A file named by the convention yields exactly the operator's name. */
  lemma CompanyNameOfProfileFile(company: string)
    ensures CompanyName(ProfilePrefix + company + Suffix) == company
  {
    var name := ProfilePrefix + company + Suffix;
    assert name[|name| - |Suffix|..] == Suffix;
    assert name[..|name| - |Suffix|] == ProfilePrefix + company;
  }

  /** The first 22 characters are dropped whatever they say. */
  lemma CompanyNameIgnoresPrefixText(head: string, company: string)
    requires |head| == |ProfilePrefix|
    ensures CompanyName(head + company + Suffix) == company
  {
    var name := head + company + Suffix;
    assert name[|name| - |Suffix|..] == Suffix;
    assert name[..|name| - |Suffix|] == head + company;
  }

  // ---------------------------------------------------------------------------
  // One row

  /**
   * df.at[metric, period] when both labels exist, None otherwise
   * (cpms_data.py:221-222).
   */
  function At(sheet: Sheet, metric: string, period: string): (c: Cell)
    ensures metric !in sheet.index || period !in sheet.columns ==> c == Absent
    ensures metric in sheet.index && period in sheet.columns && (metric, period) !in sheet.cells ==> c == NotANumber
    ensures metric in sheet.index && period in sheet.columns && (metric, period) in sheet.cells ==> c == sheet.cells[(metric, period)]
  {
    if metric in sheet.index && period in sheet.columns then
      if (metric, period) in sheet.cells then sheet.cells[(metric, period)] else NotANumber
    else Absent
  }

  /**
   * pct_chg: defined exactly when the previous value is present and nonzero
   * and the current value is present (NaN arithmetic gives NaN otherwise);
   * it is the growth that takes prev to curr.
   */
  function PctChange(prev: Option<real>, curr: Option<real>): (r: Option<real>)
    ensures r.Some? <==> prev.Some? && prev.value != 0.0 && curr.Some?
    ensures r.Some? ==> curr.value == prev.value + prev.value * r.value / 100.0
  {
    if prev.Some? && prev.value != 0.0 && curr.Some? then
      Some((curr.value - prev.value) / prev.value * 100.0)
    else None
  }

  /** The row for one file; Err when float() rejects one of its two cells. */
  function RowFor(file: UploadedFile, metric: string, curr: string, prev: string, parse: FloatParser): (r: Result<ComparisonRow, string>)
    ensures r.Ok? ==> r.value.company == CompanyName(file.name)
    ensures r.Ok? ==> r.value.pctChange == PctChange(r.value.prev, r.value.curr)
  {
    var nCurr :- ParseVal(At(file.sheet, metric, curr), parse);
    var nPrev :- ParseVal(At(file.sheet, metric, prev), parse);
    Ok(ComparisonRow(CompanyName(file.name), nPrev, nCurr, PctChange(nPrev, nCurr)))
  }

  /**
   * A row fails exactly when float() rejects one of its two cells, reporting the
   * current period's text when both are rejected; otherwise it holds the two
   * normalised values.
   */
  lemma RowForValues(file: UploadedFile, metric: string, curr: string, prev: string, parse: FloatParser)
    ensures var r := RowFor(file, metric, curr, prev, parse);
            var c, p := ParseVal(At(file.sheet, metric, curr), parse), ParseVal(At(file.sheet, metric, prev), parse);
            && (r.Err? <==> c.Err? || p.Err?)
            && (r.Ok? ==> r.value.curr == c.value && r.value.prev == p.value)
            && (c.Err? ==> r == Err(c.error))
            && (c.Ok? && p.Err? ==> r == Err(p.error))
  {
  }

  /** A sheet without the metric gives a row of missing values, not an error. */
  lemma MissingMetricRow(file: UploadedFile, metric: string, curr: string, prev: string, parse: FloatParser)
    requires metric !in file.sheet.index
    ensures RowFor(file, metric, curr, prev, parse) == Ok(ComparisonRow(CompanyName(file.name), None, None, None))
  {
  }

  /** A sheet without the previous period gives a missing previous value and no change. */
  lemma MissingPrevPeriodRow(file: UploadedFile, metric: string, curr: string, prev: string, parse: FloatParser)
    requires prev !in file.sheet.columns
    ensures var r := RowFor(file, metric, curr, prev, parse);
            r.Ok? <==> ParseVal(At(file.sheet, metric, curr), parse).Ok?
    ensures var r := RowFor(file, metric, curr, prev, parse);
            r.Ok? ==> r.value.prev == None && r.value.pctChange == None
  {
  }

  /** A sheet without the current period gives a missing current value and no change. */
  lemma MissingCurrPeriodRow(file: UploadedFile, metric: string, curr: string, prev: string, parse: FloatParser)
    requires curr !in file.sheet.columns
    ensures var r := RowFor(file, metric, curr, prev, parse);
            r.Ok? <==> ParseVal(At(file.sheet, metric, prev), parse).Ok?
    ensures var r := RowFor(file, metric, curr, prev, parse);
            r.Ok? ==> r.value.curr == None && r.value.pctChange == None
  {
  }

  /** Examples: 50 -> 75 is +50%; from 0 or from missing there is no change. */
  lemma PctChangeExamples()
    ensures PctChange(Some(50.0), Some(75.0)) == Some(50.0)
    ensures PctChange(Some(0.0), Some(10.0)) == None
    ensures PctChange(None, Some(10.0)) == None
    ensures PctChange(Some(50.0), None) == None
  {
  }

  // ---------------------------------------------------------------------------
  // The loop

  /** The outcome of each file on its own, in upload order. */
  function RowResults(files: seq<UploadedFile>, metric: string, curr: string, prev: string, parse: FloatParser)
    : (rs: seq<Result<ComparisonRow, string>>)
    ensures |rs| == |files|
  {
    seq(|files|, i requires 0 <= i < |files| => RowFor(files[i], metric, curr, prev, parse))
  }

  /**
   * All the values in order, or the first error: a loop that appends each
   * value and stops at the first error.
   */
  function Collect<T, E>(rs: seq<Result<T, E>>): Result<seq<T>, E> {
    if rs == [] then Ok([])
    else
      match rs[0]
      case Err(e) => Err(e)
      case Ok(v) =>
        match Collect(rs[1..])
        case Err(e) => Err(e)
        case Ok(vs) => Ok([v] + vs)
  }

  /** Collect succeeds exactly when every element is a value, and then keeps them all in order. */
  lemma {:induction false} CollectValues<T, E>(rs: seq<Result<T, E>>)
    ensures Collect(rs).Ok? <==> forall i :: 0 <= i < |rs| ==> rs[i].Ok?
    ensures Collect(rs).Ok? ==> |Collect(rs).value| == |rs| &&
                                forall i :: 0 <= i < |rs| ==> Collect(rs).value[i] == rs[i].value
  {
    if rs != [] {
      CollectValues(rs[1..]);
      assert forall i :: 1 <= i < |rs| ==> rs[i] == rs[1..][i - 1];
    }
  }

  /** A failed Collect reports the first error. */
  lemma {:induction false} CollectFirstError<T, E>(rs: seq<Result<T, E>>, i: nat)
    requires i < |rs| && rs[i].Err?
    requires forall j :: 0 <= j < i ==> rs[j].Ok?
    ensures Collect(rs) == Err(rs[i].error)
    decreases i
  {
    if i > 0 {
      assert forall j :: 0 <= j < i - 1 ==> rs[1..][j] == rs[j + 1];
      CollectFirstError(rs[1..], i - 1);
    }
  }

  /**
   * What the loop of cpms_data.py:213-233 produces: the rows of all files in
   * upload order, or the error of the first file whose cell float() rejects
   * (there is no try around the loop, so that error ends the run).
   */
  function CompareAll(files: seq<UploadedFile>, metric: string, curr: string, prev: string, parse: FloatParser)
    : Result<seq<ComparisonRow>, string>
  {
    Collect(RowResults(files, metric, curr, prev, parse))
  }

  /** One row per file, in upload order, each the row of its own file alone. */
  lemma CompareAllRows(files: seq<UploadedFile>, metric: string, curr: string, prev: string, parse: FloatParser)
    ensures var res := CompareAll(files, metric, curr, prev, parse);
            res.Ok? <==> forall i :: 0 <= i < |files| ==> RowFor(files[i], metric, curr, prev, parse).Ok?
    ensures var res := CompareAll(files, metric, curr, prev, parse);
            res.Ok? ==> |res.value| == |files| &&
                        forall i :: 0 <= i < |files| ==> res.value[i] == RowFor(files[i], metric, curr, prev, parse).value
  {
    var rs := RowResults(files, metric, curr, prev, parse);
    CollectValues(rs);
    assert forall i :: 0 <= i < |files| ==> rs[i] == RowFor(files[i], metric, curr, prev, parse);
  }

  /** A failed run reports the error of the first file that fails. */
  lemma CompareAllFirstError(files: seq<UploadedFile>, metric: string, curr: string, prev: string, parse: FloatParser, i: nat)
    requires i < |files| && RowFor(files[i], metric, curr, prev, parse).Err?
    requires forall j :: 0 <= j < i ==> RowFor(files[j], metric, curr, prev, parse).Ok?
    ensures CompareAll(files, metric, curr, prev, parse) == Err(RowFor(files[i], metric, curr, prev, parse).error)
  {
    CollectFirstError(RowResults(files, metric, curr, prev, parse), i);
  }

  /** Values already collected followed by the outcome for the remaining elements. */
  function Continue<T, E>(done: seq<T>, rest: Result<seq<T>, E>): Result<seq<T>, E> {
    match rest
    case Err(e) => Err(e)
    case Ok(vs) => Ok(done + vs)
  }

  /** Nothing collected yet: the outcome is that of the remaining elements. */
  lemma ContinueNothing<T, E>(rest: Result<seq<T>, E>)
    ensures Continue([], rest) == rest
  {
    if rest.Ok? {
      assert [] + rest.value == rest.value;
    }
  }

  /** Passing one more value from the remaining outcome to the collected ones. */
  lemma ContinueStep<T, E>(done: seq<T>, v: T, rest: Result<seq<T>, E>)
    ensures Continue(done, Continue([v], rest)) == Continue(done + [v], rest)
  {
    if rest.Ok? {
      assert done + ([v] + rest.value) == (done + [v]) + rest.value;
    }
  }

  /** The loop itself, appending one row per file to `results`. */
  method CompareFiles(files: seq<UploadedFile>, metric: string, curr: string, prev: string, parse: FloatParser)
    returns (res: Result<seq<ComparisonRow>, string>)
    ensures res == CompareAll(files, metric, curr, prev, parse)
  {
    ghost var rs := RowResults(files, metric, curr, prev, parse);
    var results: seq<ComparisonRow> := [];
    var i := 0;
    assert rs[0..] == rs;
    ContinueNothing(Collect(rs));
    while i < |files|
      invariant 0 <= i <= |files|
      invariant Collect(rs) == Continue(results, Collect(rs[i..]))
    {
      var row := RowFor(files[i], metric, curr, prev, parse);
      assert rs[i..][0] == row && rs[i..][1..] == rs[i + 1..];
      if row.Err? {
        return Err(row.error);
      }
      ContinueStep(results, row.value, Collect(rs[i + 1..]));
      results := results + [row.value];
      i := i + 1;
    }
    assert rs[i..] == [];
    assert results + [] == results;
    return Ok(results);
  }
}
