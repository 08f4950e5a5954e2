/**
 * The live cell-value normaliser of the company-profile comparator
 * (parse_val, cpms_data.py:203-211). Python's float() is a parameter:
 * `parse` returns None exactly where float() would raise ValueError.
 */
module CellValues {
  import opened Wrappers
  import opened Text

  /** What df.at[...] hands to parse_val: None, a NaN float, a number, or text. */
  datatype Cell = Absent | NotANumber | Number(v: real) | Text(s: string)

  /** Python float(); None stands for ValueError. */
  type FloatParser = string -> Option<real>

  predicate IsPercent(c: char) {
    c == '%'
  }

  /** A run of k percent signs. */
  function Percents(k: nat): (p: string)
    ensures |p| == k && forall i :: 0 <= i < k ==> p[i] == '%'
  {
    seq(k, _ => '%')
  }

  /**
   * The text handed to float() for a string cell: trimmed; then, if it holds
   * a '%', its trailing '%' characters are dropped (commas kept); otherwise
   * every comma is removed.
   */
  function Cleaned(s: string): string {
    var x := Strip(s);
    if '%' in x then RStripBy(x, IsPercent) else RemoveAll(x, ',')
  }

  /**
   * After trimming: a text holding '%' loses a run of trailing '%' and keeps
   * everything before it; one without '%' comes out free of commas and '%'.
   */
  lemma CleanedShape(s: string)
    ensures var x, t := Strip(s), Cleaned(s);
            '%' in x ==> |t| <= |x| && t == x[..|t|] && (t == [] || t[|t| - 1] != '%') &&
                         forall k :: |t| <= k < |x| ==> x[k] == '%'
    ensures var x, t := Strip(s), Cleaned(s);
            '%' !in x ==> ',' !in t && '%' !in t
  {
    var x := Strip(s);
    if '%' !in x {
      RemoveAllKeepsOthers(x, ',', '%');
      assert multiset(x)['%'] == 0;
      assert multiset(RemoveAll(x, ','))['%'] == 0;
    }
  }

  /**
   * parse_val: missing (None) for an absent or NaN cell, the number itself for
   * a numeric cell, float() of the cleaned text for a string cell; Err carries
   * the text that float() rejected.
   */
  function ParseVal(c: Cell, parse: FloatParser): (r: Result<Option<real>, string>)
    ensures r == Ok(None) <==> c.Absent? || c.NotANumber?
    ensures c.Number? ==> r == Ok(Some(c.v))
    ensures r.Err? <==> c.Text? && parse(Cleaned(c.s)).None?
    ensures r.Err? ==> r.error == Cleaned(c.s)
    ensures c.Text? && r.Ok? ==> r.value == parse(Cleaned(c.s))
  {
    match c
    case Absent => Ok(None)
    case NotANumber => Ok(None)
    case Number(v) => Ok(Some(v))
    case Text(s) =>
      var t := Cleaned(s);
      match parse(t)
      case None => Err(t)
      case Some(v) => Ok(Some(v))
  }

  /** Surrounding whitespace never changes what a text cell parses to. */
  lemma CleanedIgnoresSurroundingSpace(lead: string, core: string, trail: string)
    requires AllSpace(lead) && AllSpace(trail)
    requires core == [] || (!IsSpace(core[0]) && !IsSpace(core[|core| - 1]))
    ensures Cleaned(lead + core + trail) == Cleaned(core)
  {
    StripOf(lead, core, trail);
    StrippedCoreUnchanged(core);
    CleanedDependsOnStrip(lead + core + trail, core);
  }

  lemma StrippedCoreUnchanged(core: string)
    requires core == [] || (!IsSpace(core[0]) && !IsSpace(core[|core| - 1]))
    ensures Strip(core) == core
  {
    StripOf([], core, []);
    assert [] + core + [] == core;
  }

  lemma CleanedDependsOnStrip(s: string, t: string)
    requires Strip(s) == Strip(t)
    ensures Cleaned(s) == Cleaned(t)
  {
  }

  /**
   * A value followed by one or more '%' (and surrounded by any whitespace)
   * is cleaned to the value itself, commas included: all trailing '%' go.
   */
  lemma CleanedPercent(lead: string, v: string, k: nat, trail: string)
    requires AllSpace(lead) && AllSpace(trail) && k >= 1
    requires v == [] || (!IsSpace(v[0]) && v[|v| - 1] != '%')
    ensures Cleaned(lead + (v + Percents(k)) + trail) == v
  {
    var core := v + Percents(k);
    assert core[|core| - 1] == '%';
    assert core[0] == if v == [] then '%' else v[0];
    StripOf(lead, core, trail);
    assert '%' in core;
    RStripPast(v, Percents(k), IsPercent);
  }

  /** Without a '%', every comma is removed and nothing else is touched. */
  lemma CleanedPlain(lead: string, core: string, trail: string)
    requires AllSpace(lead) && AllSpace(trail)
    requires core == [] || (!IsSpace(core[0]) && !IsSpace(core[|core| - 1]))
    requires '%' !in core
    ensures Cleaned(lead + core + trail) == RemoveAll(core, ',')
    ensures ',' !in core ==> Cleaned(lead + core + trail) == core
  {
    StripOf(lead, core, trail);
    if ',' !in core {
      RemoveAllAbsent(core, ',');
    }
  }

  /** A text that strip() leaves alone and that holds no '%' loses exactly its commas. */
  lemma CleanedStrippedPlain(core: string)
    requires core == [] || (!IsSpace(core[0]) && !IsSpace(core[|core| - 1]))
    requires '%' !in core
    ensures Cleaned(core) == RemoveAll(core, ',')
  {
    StrippedCoreUnchanged(core);
  }

  /**
   * A thousands separator between two comma-free parts is dropped: the text
   * handed to float() for "1,234.5" is "1234.5".
   */
  lemma ThousandsSeparator(a: string, b: string)
    requires a != [] && b != [] && !IsSpace(a[0]) && !IsSpace(b[|b| - 1])
    requires ',' !in a && ',' !in b && '%' !in a && '%' !in b
    ensures Cleaned(a + [','] + b) == a + b
  {
    var core := a + [','] + b;
    assert core[0] == a[0] && core[|core| - 1] == b[|b| - 1];
    assert '%' !in core;
    CleanedStrippedPlain(core);
    RemoveSeparator(a, b, ',');
  }
}
