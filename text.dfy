/**
 * The Python string and integer built-ins the scripts lean on: str.isspace,
 * str.split(), str.strip(), str.rstrip(chars), str.replace(c, ""), str.lower(),
 * int(token) and the decimal rendering of an int inside an f-string.
 */
module Text {
  import opened Wrappers

  /** Exactly the characters for which Python's str.isspace() holds. */
  predicate IsSpace(c: char) {
    || ('\t' <= c <= '\r')
    || ('\U{1C}' <= c <= '\U{1F}')
    || c == ' '
    || c == '\U{85}'
    || c == '\U{A0}'
    || c == '\U{1680}'
    || ('\U{2000}' <= c <= '\U{200A}')
    || c == '\U{2028}'
    || c == '\U{2029}'
    || c == '\U{202F}'
    || c == '\U{205F}'
    || c == '\U{3000}'
  }

  predicate NoSpace(s: string) {
    forall k :: 0 <= k < |s| ==> !IsSpace(s[k])
  }

  predicate AllSpace(s: string) {
    forall k :: 0 <= k < |s| ==> IsSpace(s[k])
  }

  // ---------------------------------------------------------------------------
  // strip / rstrip

  /** Drops the longest prefix whose characters all satisfy `drop`. */
  function LStripBy(s: string, drop: char -> bool): (r: string)
    ensures |r| <= |s| && r == s[|s| - |r|..]
    ensures forall k :: 0 <= k < |s| - |r| ==> drop(s[k])
    ensures r == [] || !drop(r[0])
  {
    if s != [] && drop(s[0]) then LStripBy(s[1..], drop) else s
  }

  /** Python's str.rstrip(chars) with `drop` as the character set. */
  function RStripBy(s: string, drop: char -> bool): (r: string)
    ensures |r| <= |s| && r == s[..|r|]
    ensures forall k :: |r| <= k < |s| ==> drop(s[k])
    ensures r == [] || !drop(r[|r| - 1])
  {
    if s != [] && drop(s[|s| - 1]) then RStripBy(s[..|s| - 1], drop) else s
  }

  /** Python's str.strip() with no argument. */
  function Strip(s: string): (r: string)
    ensures |r| <= |s|
    ensures r == [] || (!IsSpace(r[0]) && !IsSpace(r[|r| - 1]))
  {
    RStripBy(LStripBy(s, IsSpace), IsSpace)
  }

  lemma {:induction false} LStripPast(lead: string, rest: string, drop: char -> bool)
    requires forall k :: 0 <= k < |lead| ==> drop(lead[k])
    requires rest == [] || !drop(rest[0])
    ensures LStripBy(lead + rest, drop) == rest
  {
    if lead != [] {
      assert (lead + rest)[1..] == lead[1..] + rest;
      LStripPast(lead[1..], rest, drop);
    } else {
      assert lead + rest == rest;
    }
  }

  lemma {:induction false} RStripPast(rest: string, trail: string, drop: char -> bool)
    requires forall k :: 0 <= k < |trail| ==> drop(trail[k])
    requires rest == [] || !drop(rest[|rest| - 1])
    ensures RStripBy(rest + trail, drop) == rest
  {
    if trail != [] {
      var t := trail[..|trail| - 1];
      assert (rest + trail)[..|rest + trail| - 1] == rest + t;
      RStripPast(rest, t, drop);
    } else {
      assert rest + trail == rest;
    }
  }

  /** strip() removes exactly the surrounding whitespace and nothing of the core. */
  lemma StripOf(lead: string, core: string, trail: string)
    requires AllSpace(lead) && AllSpace(trail)
    requires core == [] || (!IsSpace(core[0]) && !IsSpace(core[|core| - 1]))
    ensures Strip(lead + core + trail) == core
  {
    if core != [] {
      assert lead + core + trail == lead + (core + trail);
      LStripPast(lead, core + trail, IsSpace);
      RStripPast(core, trail, IsSpace);
    } else {
      var all := lead + trail;
      assert lead + core + trail == all + [];
      assert AllSpace(all);
      LStripPast(all, [], IsSpace);
    }
  }

  /** A text without surrounding whitespace is left as it is. */
  lemma StripTrimmed(s: string)
    requires s == [] || (!IsSpace(s[0]) && !IsSpace(s[|s| - 1]))
    ensures Strip(s) == s
  {
    StripOf([], s, []);
    assert [] + s + [] == s;
  }

  // ---------------------------------------------------------------------------
  // replace(c, "")

  /** Python's s.replace(c, "") for a one-character `c`. */
  function RemoveAll(s: string, c: char): (r: string)
    ensures forall k :: 0 <= k < |r| ==> r[k] != c
  {
    if s == [] then []
    else if s[0] == c then RemoveAll(s[1..], c)
    else [s[0]] + RemoveAll(s[1..], c)
  }

  /** Every character other than `c` survives, as often as it occurred. */
  lemma {:induction false} RemoveAllKeepsOthers(s: string, c: char, d: char)
    requires d != c
    ensures multiset(RemoveAll(s, c))[d] == multiset(s)[d]
  {
    if s != [] {
      RemoveAllKeepsOthers(s[1..], c, d);
      assert s == [s[0]] + s[1..];
    }
  }

  lemma {:induction false} RemoveAllAbsent(s: string, c: char)
    requires c !in s
    ensures RemoveAll(s, c) == s
  {
    if s != [] {
      RemoveAllAbsent(s[1..], c);
    }
  }

  lemma {:induction false} RemoveAllAppend(a: string, b: string, c: char)
    ensures RemoveAll(a + b, c) == RemoveAll(a, c) + RemoveAll(b, c)
  {
    if a == [] {
      assert a + b == b;
    } else {
      assert (a + b)[1..] == a[1..] + b;
      RemoveAllAppend(a[1..], b, c);
    }
  }

  lemma RemoveAllSingle(c: char)
    ensures RemoveAll([c], c) == []
  {
  }

  /** Removing the one separator between two separator-free parts joins them. */
  lemma RemoveSeparator(a: string, b: string, c: char)
    requires c !in a && c !in b
    ensures RemoveAll(a + [c] + b, c) == a + b
  {
    assert RemoveAll(a + [c], c) == a by {
      RemoveAllAppend(a, [c], c);
      RemoveAllAbsent(a, c);
      RemoveAllSingle(c);
      assert a + [] == a;
    }
    RemoveAllAppend(a + [c], b, c);
    RemoveAllAbsent(b, c);
  }

  // ---------------------------------------------------------------------------
  // lower()

  /** Python's str.lower() on one character, for the ASCII letters. */
  function LowerChar(c: char): (d: char)
    ensures 'A' <= c <= 'Z' ==> d as int == c as int - 'A' as int + 'a' as int
    ensures !('A' <= c <= 'Z') ==> d == c
  {
    if 'A' <= c <= 'Z' then (c as int - 'A' as int + 'a' as int) as char else c
  }

  function Lower(s: string): (r: string)
    ensures |r| == |s|
  {
    seq(|s|, i requires 0 <= i < |s| => LowerChar(s[i]))
  }

  /** Lower-casing never turns a space into a non-space or back. */
  lemma LowerCharSpace(c: char)
    ensures IsSpace(LowerChar(c)) == IsSpace(c)
  {
  }

  /** Lower-casing a text without surrounding whitespace keeps it so. */
  lemma LowerTrimmed(s: string)
    requires s == [] || (!IsSpace(s[0]) && !IsSpace(s[|s| - 1]))
    ensures Lower(s) == [] || (!IsSpace(Lower(s)[0]) && !IsSpace(Lower(s)[|s| - 1]))
  {
    if s != [] {
      LowerCharSpace(s[0]);
      LowerCharSpace(s[|s| - 1]);
    }
  }

  lemma LowerIdempotent(s: string)
    ensures Lower(Lower(s)) == Lower(s)
  {
  }

  // ---------------------------------------------------------------------------
  // split()

  /** Length of the leading run of non-space characters. */
  function WordLength(s: string): (n: nat)
    ensures n <= |s|
    ensures forall k :: 0 <= k < n ==> !IsSpace(s[k])
    ensures n == |s| || IsSpace(s[n])
  {
    if s == [] || IsSpace(s[0]) then 0 else 1 + WordLength(s[1..])
  }

  /** Python's str.split() with no separator: the maximal runs of non-space characters. */
  function Split(s: string): (toks: seq<string>)
    ensures forall i :: 0 <= i < |toks| ==> toks[i] != [] && NoSpace(toks[i])
    decreases |s|
  {
    if s == [] then []
    else if IsSpace(s[0]) then Split(s[1..])
    else
      var n := WordLength(s);
      [s[..n]] + Split(s[n..])
  }

  lemma {:induction false} WordLengthOf(w: string, rest: string)
    requires NoSpace(w)
    requires rest == [] || IsSpace(rest[0])
    ensures WordLength(w + rest) == |w|
  {
    if w == [] {
      assert w + rest == rest;
    } else {
      assert (w + rest)[1..] == w[1..] + rest;
      WordLengthOf(w[1..], rest);
    }
  }

  lemma SplitWord(w: string)
    requires w != [] && NoSpace(w)
    ensures Split(w) == [w]
  {
    WordLengthOf(w, []);
    assert w + [] == w;
  }

  /** Two words joined by one space split back into exactly those two words. */
  lemma SplitTwoWords(a: string, b: string)
    requires a != [] && NoSpace(a)
    requires b != [] && NoSpace(b)
    ensures Split(a + " " + b) == [a, b]
  {
    var s := a + " " + b;
    WordLengthOf(a, " " + b);
    assert s == a + (" " + b);
    assert s[..|a|] == a;
    assert s[|a|..] == " " + b;
    assert (" " + b)[1..] == b;
    SplitWord(b);
  }

  /** Leading whitespace is skipped by split(). */
  lemma {:induction false} SplitSkipsSpace(lead: string, s: string)
    requires AllSpace(lead)
    ensures Split(lead + s) == Split(s)
  {
    if lead == [] {
      assert lead + s == s;
    } else {
      assert (lead + s)[0] == lead[0];
      assert (lead + s)[1..] == lead[1..] + s;
      SplitSkipsSpace(lead[1..], s);
    }
  }

  /** A word ended by whitespace (or the end of the text) is the next token. */
  lemma SplitWordThen(w: string, rest: string)
    requires w != [] && NoSpace(w)
    requires rest == [] || IsSpace(rest[0])
    ensures Split(w + rest) == [w] + Split(rest)
  {
    var s := w + rest;
    WordLengthOf(w, rest);
    assert s[0] == w[0];
    assert s[..|w|] == w && s[|w|..] == rest;
  }

  /**
   * split() ignores surrounding whitespace and treats any non-empty run of
   * whitespace between two words as one separator.
   */
  lemma SplitTwoWordsAnySpace(lead: string, a: string, sep: string, b: string, trail: string)
    requires AllSpace(lead) && AllSpace(trail)
    requires sep != [] && AllSpace(sep)
    requires a != [] && NoSpace(a)
    requires b != [] && NoSpace(b)
    ensures Split(lead + a + sep + b + trail) == [a, b]
  {
    assert lead + a + sep + b + trail == lead + (a + (sep + (b + trail)));
    SplitSkipsSpace(lead, a + (sep + (b + trail)));
    SplitWordThen(a, sep + (b + trail));
    SplitSkipsSpace(sep, b + trail);
    SplitWordThen(b, trail);
    SplitSkipsSpace(trail, []);
    assert trail + [] == trail;
  }

  // ---------------------------------------------------------------------------
  // int(token) and str(int)

  predicate IsDigit(c: char) {
    '0' <= c <= '9'
  }

  predicate AllDigits(s: string) {
    forall k :: 0 <= k < |s| ==> IsDigit(s[k])
  }

  function DigitValue(c: char): (d: nat)
    requires IsDigit(c)
    ensures d < 10
  {
    c as int - '0' as int
  }

  function DigitChar(d: nat): (c: char)
    requires d < 10
    ensures IsDigit(c) && DigitValue(c) == d
  {
    ('0' as int + d) as char
  }

  /** The value of a run of decimal digits, most significant first. */
  function DigitsValue(s: string): nat
    requires AllDigits(s)
  {
    if s == [] then 0 else DigitsValue(s[..|s| - 1]) * 10 + DigitValue(s[|s| - 1])
  }

  /** Decimal rendering of a natural number, as Python's str() gives it. */
  function NatToString(n: nat): (s: string)
    ensures s != [] && AllDigits(s)
  {
    if n < 10 then [DigitChar(n)] else NatToString(n / 10) + [DigitChar(n % 10)]
  }

  /** Decimal rendering of an integer, as an f-string's `{n}` gives it. */
  function IntToString(i: int): (s: string)
    ensures s != [] && NoSpace(s)
  {
    if i < 0 then "-" + NatToString(-i) else NatToString(i)
  }

  /**
   * Python's int() applied to a token that split() produced (so no surrounding
   * space): an optional sign followed by one or more ASCII digits; anything
   * else raises ValueError, modelled as None.
   */
  function ParseInt(s: string): (r: Option<int>)
    ensures r.Some? ==> s != []
    ensures r.Some? <==> (s != [] && AllDigits(s)) ||
                         (|s| >= 2 && (s[0] == '-' || s[0] == '+') && AllDigits(s[1..]))
  {
    if s != [] && (s[0] == '-' || s[0] == '+') then
      var digits := s[1..];
      if digits != [] && AllDigits(digits) then
        var v: int := DigitsValue(digits);
        Some(if s[0] == '-' then -v else v)
      else None
    else if s != [] && AllDigits(s) then Some(DigitsValue(s))
    else None
  }

  lemma {:induction false} NatToStringValue(n: nat)
    ensures DigitsValue(NatToString(n)) == n
  {
    if n >= 10 {
      var s := NatToString(n);
      NatToStringValue(n / 10);
      assert s[..|s| - 1] == NatToString(n / 10);
    }
  }

  lemma NegativeRoundTrip(n: nat)
    requires n > 0
    ensures ParseInt("-" + NatToString(n)) == Some(-(n as int))
  {
    var s := "-" + NatToString(n);
    assert s[0] == '-' && s[1..] == NatToString(n);
    NatToStringValue(n);
  }

  /** int(str(i)) == i. */
  lemma IntRoundTrip(i: int)
    ensures ParseInt(IntToString(i)) == Some(i)
  {
    if i < 0 {
      NegativeRoundTrip(-i);
    } else {
      NatToStringValue(i);
    }
  }
}
