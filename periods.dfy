/**
 * Period labels of the company-profile comparator (cpms_data.py:141-159):
 * labels "Q<n> <year>", the dropdown of 32 of them, and the two ways of
 * naming the period to compare against (quarter-over-quarter, year-over-year).
 * A label that Python could not take apart (wrong token count, a quarter token
 * shorter than two characters, a non-integer year or quarter digit) raises;
 * the model returns None there.
 */
module Periods {
  import opened Wrappers
  import opened Text

  /** The label f"Q{q} {y}". */
  function Label(q: int, y: int): string {
    "Q" + IntToString(q) + " " + IntToString(y)
  }

  /** get_prev_q: step back one quarter, Q1 wrapping to Q4 of the year before. */
  function PrevQuarter(qstr: string): (r: Option<string>)
    ensures |Split(qstr)| != 2 ==> r.None?
    ensures r.Some? ==> |Split(qstr)| == 2 && ParseInt(Split(qstr)[1]).Some?
    ensures r.Some? ==> |Split(qstr)[0]| >= 2 && IsDigit(Split(qstr)[0][1])
  {
    var toks := Split(qstr);
    if |toks| != 2 then None
    else
      var q, y := toks[0], toks[1];
      match ParseInt(y)
      case None => None
      case Some(year) =>
        if |q| < 2 || !IsDigit(q[1]) then None
        else
          var num := DigitValue(q[1]);
          Some(if num == 1 then "Q4 " + IntToString(year - 1)
               else "Q" + IntToString(num - 1) + " " + IntToString(year))
  }

  /** get_prev_y: the same quarter token, one year earlier. */
  function PrevYear(qstr: string): (r: Option<string>)
    ensures |Split(qstr)| != 2 ==> r.None?
    ensures r.Some? ==> |Split(qstr)| == 2 && ParseInt(Split(qstr)[1]).Some?
  {
    var toks := Split(qstr);
    if |toks| != 2 then None
    else
      var q, y := toks[0], toks[1];
      match ParseInt(y)
      case None => None
      case Some(year) => Some(q + " " + IntToString(year - 1))
  }

  datatype Comparison = QoQ | YoY

  /** prev_q, chosen by the comparison type. */
  function PreviousPeriod(curr: string, mode: Comparison): (r: Option<string>)
    ensures mode == QoQ ==> r == PrevQuarter(curr)
    ensures mode == YoY ==> r == PrevYear(curr)
  {
    match mode
    case QoQ => PrevQuarter(curr)
    case YoY => PrevYear(curr)
  }

  /**
   * prev_q on a well-formed label: Q1 of y goes back to Q4 of y - 1 and Qn to
   * Q(n-1) of y quarter over quarter; year over year keeps Qn and takes y - 1.
   */
  lemma PreviousPeriodOfLabel(n: int, y: int, mode: Comparison)
    requires 1 <= n <= 4
    ensures PreviousPeriod(Label(n, y), mode) ==
            Some(match mode
                 case QoQ => (if n == 1 then Label(4, y - 1) else Label(n - 1, y))
                 case YoY => Label(n, y - 1))
  {
    PrevQuarterOfLabel(n, y);
    PrevYearOfLabel(n, y);
  }

  lemma SmallIntToString(n: nat)
    requires n < 10
    ensures IntToString(n) == [DigitChar(n)]
  {
  }

  lemma LabelSplits(q: nat, y: int)
    requires q < 10
    ensures Split(Label(q, y)) == ["Q" + [DigitChar(q)], IntToString(y)]
  {
    var a := "Q" + [DigitChar(q)];
    SmallIntToString(q);
    assert NoSpace(a) by {
      assert a[0] == 'Q' && a[1] == DigitChar(q);
    }
    SplitTwoWords(a, IntToString(y));
  }

  /** The two tokens split() finds in a label, and what int() makes of them. */
  lemma LabelTokens(n: int, y: int)
    requires 1 <= n <= 4
    ensures Split(Label(n, y)) == ["Q" + [DigitChar(n)], IntToString(y)]
    ensures ParseInt(IntToString(y)) == Some(y)
  {
    LabelSplits(n, y);
    IntRoundTrip(y);
  }

  lemma LabelOfFourthQuarter(y: int)
    ensures Label(4, y) == "Q4 " + IntToString(y)
  {
    SmallIntToString(4);
  }

  /** get_prev_q on any string that splits like the label of quarter n of year y. */
  lemma PrevQuarterOfLabelTokens(s: string, n: int, y: int)
    requires 1 <= n <= 4
    requires Split(s) == ["Q" + [DigitChar(n)], IntToString(y)]
    requires ParseInt(IntToString(y)) == Some(y)
    ensures PrevQuarter(s) == Some(if n == 1 then Label(4, y - 1) else Label(n - 1, y))
  {
    var q := "Q" + [DigitChar(n)];
    assert q[1] == DigitChar(n);
    LabelOfFourthQuarter(y - 1);
  }

  /**
   * Quarter-over-quarter on a well-formed label: Q1 of year y goes to Q4 of
   * y - 1; Q2..Q4 go to the quarter before, in the same year.
   */
  lemma PrevQuarterOfLabel(n: int, y: int)
    requires 1 <= n <= 4
    ensures PrevQuarter(Label(n, y)) == Some(if n == 1 then Label(4, y - 1) else Label(n - 1, y))
  {
    LabelTokens(n, y);
    PrevQuarterOfLabelTokens(Label(n, y), n, y);
  }

  /** Year-over-year keeps the quarter token as written and takes one off the year. */
  lemma PrevYearKeepsQuarter(q: string, y: int)
    requires q != [] && NoSpace(q)
    ensures PrevYear(q + " " + IntToString(y)) == Some(q + " " + IntToString(y - 1))
  {
    SplitTwoWords(q, IntToString(y));
    IntRoundTrip(y);
  }

  /** Year-over-year on a well-formed label: the same quarter of the year before. */
  lemma PrevYearOfLabel(n: int, y: int)
    requires 1 <= n <= 4
    ensures PrevYear(Label(n, y)) == Some(Label(n, y - 1))
  {
    var q := "Q" + IntToString(n);
    SmallIntToString(n);
    assert q == ['Q', DigitChar(n)];
    assert Label(n, y) == q + " " + IntToString(y);
    assert Label(n, y - 1) == q + " " + IntToString(y - 1);
    PrevYearKeepsQuarter(q, y);
  }

  /** A label that does not split into exactly two tokens is rejected. */
  lemma OneTokenRejected()
    ensures PrevQuarter("Q3") == None && PrevYear("Q3") == None
  {
    SplitWord("Q3");
  }

  // ---------------------------------------------------------------------------
  // quarter_options

  const FirstYear: int := 2019
  const EndYear: int := 2027  // exclusive, as in range(2019, 2027)

  /** list(range(lo, hi)) */
  function YearRange(lo: int, hi: int): seq<int>
    decreases hi - lo
  {
    if lo >= hi then [] else [lo] + YearRange(lo + 1, hi)
  }

  /** [f"Q{q} {y}" for y in years for q in (1, 2, 3, 4)] */
  function OptionsFor(years: seq<int>): seq<string> {
    Concat(seq(|years|, k requires 0 <= k < |years| => YearOptions(years[k])))
  }

  /** The blocks one after another. */
  function Concat(blocks: seq<seq<string>>): seq<string> {
    if blocks == [] then [] else blocks[0] + Concat(blocks[1..])
  }

  /** With blocks of four, entry j of block k sits at position 4 * k + j. */
  lemma {:induction false} ConcatAt(blocks: seq<seq<string>>, i: int, k: int, j: int)
    requires forall b :: b in blocks ==> |b| == 4
    requires 0 <= k < |blocks| && 0 <= j < 4 && i == 4 * k + j
    ensures |Concat(blocks)| == 4 * |blocks|
    ensures Concat(blocks)[i] == blocks[k][j]
  {
    ConcatLength(blocks);
    assert blocks[0] in blocks;
    if k > 0 {
      assert forall b :: b in blocks[1..] ==> b in blocks;
      ConcatAt(blocks[1..], i - 4, k - 1, j);
    }
  }

  lemma {:induction false} ConcatLength(blocks: seq<seq<string>>)
    requires forall b :: b in blocks ==> |b| == 4
    ensures |Concat(blocks)| == 4 * |blocks|
  {
    if blocks != [] {
      assert blocks[0] in blocks;
      assert forall b :: b in blocks[1..] ==> b in blocks;
      ConcatLength(blocks[1..]);
    }
  }

  /** The inner loop of the comprehension: Q1..Q4 of one year. */
  function YearOptions(y: int): seq<string> {
    [Label(1, y), Label(2, y), Label(3, y), Label(4, y)]
  }

  lemma YearOptionsAt(y: int, q: int)
    requires 1 <= q <= 4
    ensures |YearOptions(y)| == 4 && YearOptions(y)[q - 1] == Label(q, y)
  {
  }

  function QuarterOptions(): seq<string> {
    OptionsFor(YearRange(FirstYear, EndYear))
  }

  lemma {:induction false} YearRangeAt(lo: int, hi: int)
    requires lo <= hi
    ensures |YearRange(lo, hi)| == hi - lo
    ensures forall k :: 0 <= k < hi - lo ==> YearRange(lo, hi)[k] == lo + k
    decreases hi - lo
  {
    if lo < hi {
      YearRangeAt(lo + 1, hi);
    }
  }

  /** Quarter q of the k-th year sits at position i = 4 * k + q - 1. */
  lemma OptionsForAt(years: seq<int>, i: int, k: int, q: int)
    requires 0 <= k < |years| && 1 <= q <= 4 && i == 4 * k + q - 1
    ensures |OptionsFor(years)| == 4 * |years|
    ensures OptionsFor(years)[i] == Label(q, years[k])
  {
    var blocks := seq(|years|, k requires 0 <= k < |years| => YearOptions(years[k]));
    forall b | b in blocks ensures |b| == 4 {
      var m :| 0 <= m < |blocks| && blocks[m] == b;
      YearOptionsAt(years[m], 1);
    }
    ConcatAt(blocks, i, k, q - 1);
    YearOptionsAt(years[k], q);
  }

  lemma OptionsForLength(years: seq<int>)
    ensures |OptionsFor(years)| == 4 * |years|
  {
    if years != [] {
      OptionsForAt(years, 0, 0, 1);
    }
  }

  /** The labels for the years lo..hi-1, in order: year-major, Q1..Q4 within a year. */
  lemma RangeOptionAt(lo: int, hi: int, i: int, k: int, q: int)
    requires 0 <= k < hi - lo && 1 <= q <= 4 && i == 4 * k + q - 1
    ensures |OptionsFor(YearRange(lo, hi))| == 4 * (hi - lo)
    ensures OptionsFor(YearRange(lo, hi))[i] == Label(q, lo + k)
  {
    YearRangeAt(lo, hi);
    OptionsForAt(YearRange(lo, hi), i, k, q);
  }

  /** Every position of the dropdown is quarter q of some year k. */
  lemma Position(i: int) returns (k: int, q: int)
    requires i >= 0
    ensures k >= 0 && 1 <= q <= 4 && i == 4 * k + q - 1
  {
    k, q := i / 4, i % 4 + 1;
  }

  /** get_prev_q links two neighbouring labels of any sequence. */
  lemma PrevQuarterStep(o: seq<string>, i: int, n: int, y: int)
    requires 0 < i < |o| && 1 <= n <= 4 && o[i] == Label(n, y)
    requires o[i - 1] == if n == 1 then Label(4, y - 1) else Label(n - 1, y)
    ensures PrevQuarter(o[i]) == Some(o[i - 1])
  {
    PrevQuarterOfLabel(n, y);
  }

  /** get_prev_y links two labels four places apart in any sequence. */
  lemma PrevYearStep(o: seq<string>, i: int, n: int, y: int)
    requires 4 <= i < |o| && 1 <= n <= 4 && o[i] == Label(n, y) && o[i - 4] == Label(n, y - 1)
    ensures PrevYear(o[i]) == Some(o[i - 4])
  {
    PrevYearOfLabel(n, y);
  }

  /** The label at position i > 0 and the one just before it. */
  lemma NeighbourLabels(lo: int, hi: int, i: int) returns (k: int, q: int)
    requires lo <= hi && 0 < i < 4 * (hi - lo)
    ensures 1 <= q <= 4 && |OptionsFor(YearRange(lo, hi))| == 4 * (hi - lo)
    ensures OptionsFor(YearRange(lo, hi))[i] == Label(q, lo + k)
    ensures OptionsFor(YearRange(lo, hi))[i - 1] == if q == 1 then Label(4, lo + k - 1) else Label(q - 1, lo + k)
  {
    k, q := Position(i);
    RangeOptionAt(lo, hi, i, k, q);
    if q == 1 {
      RangeOptionAt(lo, hi, i - 1, k - 1, 4);
    } else {
      RangeOptionAt(lo, hi, i - 1, k, q - 1);
    }
  }

  lemma RangeOptionsChain(lo: int, hi: int, i: int)
    requires lo <= hi && 0 < i < 4 * (hi - lo)
    ensures |OptionsFor(YearRange(lo, hi))| == 4 * (hi - lo)
    ensures PrevQuarter(OptionsFor(YearRange(lo, hi))[i]) == Some(OptionsFor(YearRange(lo, hi))[i - 1])
  {
    var k, q := NeighbourLabels(lo, hi, i);
    PrevQuarterStep(OptionsFor(YearRange(lo, hi)), i, q, lo + k);
  }

  /** The label at position i >= 4 and the one four places before it. */
  lemma YearApartLabels(lo: int, hi: int, i: int) returns (k: int, q: int)
    requires lo <= hi && 4 <= i < 4 * (hi - lo)
    ensures 1 <= q <= 4 && |OptionsFor(YearRange(lo, hi))| == 4 * (hi - lo)
    ensures OptionsFor(YearRange(lo, hi))[i] == Label(q, lo + k)
    ensures OptionsFor(YearRange(lo, hi))[i - 4] == Label(q, lo + k - 1)
  {
    k, q := Position(i);
    RangeOptionAt(lo, hi, i, k, q);
    RangeOptionAt(lo, hi, i - 4, k - 1, q);
  }

  lemma RangeOptionsYearChain(lo: int, hi: int, i: int)
    requires lo <= hi && 4 <= i < 4 * (hi - lo)
    ensures |OptionsFor(YearRange(lo, hi))| == 4 * (hi - lo)
    ensures PrevYear(OptionsFor(YearRange(lo, hi))[i]) == Some(OptionsFor(YearRange(lo, hi))[i - 4])
  {
    var k, q := YearApartLabels(lo, hi, i);
    PrevYearStep(OptionsFor(YearRange(lo, hi)), i, q, lo + k);
  }

  /** 32 labels, year-major, Q1..Q4 within a year: Q1 2019, Q2 2019, ..., Q4 2026. */
  lemma QuarterOptionAt(i: int, k: int, q: int)
    requires 0 <= k < 8 && 1 <= q <= 4 && i == 4 * k + q - 1
    ensures |QuarterOptions()| == 32 && QuarterOptions()[i] == Label(q, FirstYear + k)
  {
    RangeOptionAt(FirstYear, EndYear, i, k, q);
  }

  /** Every label of the dropdown but the first has its predecessor as previous quarter. */
  lemma QuarterOptionsChain(i: int)
    requires 0 < i < 32
    ensures |QuarterOptions()| == 32
    ensures PrevQuarter(QuarterOptions()[i]) == Some(QuarterOptions()[i - 1])
  {
    RangeOptionsChain(FirstYear, EndYear, i);
  }

  /** Year-over-year from any label of the second year on lands four places earlier. */
  lemma QuarterOptionsYearChain(i: int)
    requires 4 <= i < 32
    ensures |QuarterOptions()| == 32
    ensures PrevYear(QuarterOptions()[i]) == Some(QuarterOptions()[i - 4])
  {
    RangeOptionsYearChain(FirstYear, EndYear, i);
  }

  /** No label of the years lo..hi-1 names an earlier year. */
  lemma RangeOptionsFrom(lo: int, hi: int, q: nat, y: int)
    requires lo <= hi && q < 10 && y < lo
    ensures Label(q, y) !in OptionsFor(YearRange(lo, hi))
  {
    var o := OptionsFor(YearRange(lo, hi));
    YearRangeAt(lo, hi);
    OptionsForLength(YearRange(lo, hi));
    if Label(q, y) in o {
      var i :| 0 <= i < |o| && o[i] == Label(q, y);
      var k, q' := Position(i);
      RangeOptionAt(lo, hi, i, k, q');
      LabelInjective(q', lo + k, q, y);
    }
  }

  /** The first label's previous quarter, Q4 2018, is not itself a dropdown label. */
  lemma FirstOptionPrev()
    ensures PrevQuarter(QuarterOptions()[0]) == Some(Label(4, FirstYear - 1))
    ensures Label(4, FirstYear - 1) !in QuarterOptions()
  {
    QuarterOptionAt(0, 0, 1);
    PrevQuarterOfLabel(1, FirstYear);
    RangeOptionsFrom(FirstYear, EndYear, 4, FirstYear - 1);
  }

  lemma LabelInjective(q1: nat, y1: int, q2: nat, y2: int)
    requires q1 < 10 && q2 < 10
    requires Label(q1, y1) == Label(q2, y2)
    ensures q1 == q2 && y1 == y2
  {
    LabelSplits(q1, y1);
    LabelSplits(q2, y2);
    IntRoundTrip(y1);
    IntRoundTrip(y2);
    assert ("Q" + [DigitChar(q1)])[1] == DigitChar(q1);
    assert ("Q" + [DigitChar(q2)])[1] == DigitChar(q2);
  }
}
