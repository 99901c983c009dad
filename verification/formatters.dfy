/**
  The display-string formatters of the device script: `temp`, `percent`,
  `speed` and `condition`. Each maps an optional reading to the text shown
  on the panel, with a fixed placeholder when the reading is missing.
 */
module Formatters {
  import opened Wrappers
  import Decimal
  import Rounding

  /** The degree sign U+00B0 that follows a temperature. */
  const Degree: char := '\U{00B0}'

  /**
    The shape shared by the three numeric formatters: a missing reading
    shows "--" before the unit, a present one its integer before the unit.
   */
  function Reading(v: Option<int>, unit: string): (r: string)
    ensures v.None? ==> r == "--" + unit
    ensures v.Some? ==> |r| > |unit| && r[|r| - |unit|..] == unit
    ensures v.Some? ==> Decimal.Parse(r[..|r| - |unit|]) == Some(v.value)
    ensures v.Some? ==> Decimal.Canonical(r[..|r| - |unit|])
  {
    match v
    case None => "--" + unit
    case Some(n) =>
      var r := Decimal.FromInt(n) + unit;
      assert r[..|r| - |unit|] == Decimal.FromInt(n);
      r
  }

  /** Rounds a present reading after an affine unit conversion. */
  function Convert(v: Option<real>, scale: real, offset: real): Option<int>
  {
    if v.None? then None else Some(Rounding.Round(v.value * scale + offset))
  }

  /** `temp`: degrees Celsius shown as rounded degrees Fahrenheit. */
  function Temp(t: Option<real>): (r: string)
    ensures t.None? ==> r == "--" + [Degree]
    ensures t.Some? ==> |r| >= 2 && r[|r| - 1] == Degree
    ensures t.Some? ==> Decimal.Parse(r[..|r| - 1]) == Some(Rounding.Round(t.value * 1.8 + 32.0))
    ensures t.Some? ==> Decimal.Canonical(r[..|r| - 1])
  {
    Reading(Convert(t, 1.8, 32.0), [Degree])
  }

  /** `percent`: a fraction shown as a rounded percentage. */
  function Percent(p: Option<real>): (r: string)
    ensures p.None? ==> r == "--%"
    ensures p.Some? ==> |r| >= 2 && r[|r| - 1] == '%'
    ensures p.Some? ==> Decimal.Parse(r[..|r| - 1]) == Some(Rounding.Round(p.value * 100.0))
    ensures p.Some? ==> Decimal.Canonical(r[..|r| - 1])
  {
    Reading(Convert(p, 100.0, 0.0), "%")
  }

  /** `speed`: a wind speed scaled by the script's fixed mile factor 0.6213712. */
  function Speed(s: Option<real>): (r: string)
    ensures s.None? ==> r == "--mph"
    ensures s.Some? ==> |r| >= 4 && r[|r| - 3..] == "mph"
    ensures s.Some? ==> Decimal.Parse(r[..|r| - 3]) == Some(Rounding.Round(s.value * 0.6213712))
    ensures s.Some? ==> Decimal.Canonical(r[..|r| - 3])
  {
    Reading(Convert(s, 0.6213712, 0.0), "mph")
  }

  /** A present reading never shows as the placeholder, whatever its value. */
  lemma PresentIsNotPlaceholder(x: real)
    ensures Temp(Some(x)) != Temp(None)
    ensures Percent(Some(x)) != Percent(None)
    ensures Speed(Some(x)) != Speed(None)
  {
    var t, p, s := Temp(Some(x)), Percent(Some(x)), Speed(Some(x));
    assert t[..|t| - 1] != "--" by { assert Decimal.Parse(t[..|t| - 1]).Some?; }
    assert p[..|p| - 1] != "--" by { assert Decimal.Parse(p[..|p| - 1]).Some?; }
    assert s[..|s| - 3] != "--" by { assert Decimal.Parse(s[..|s| - 3]).Some?; }
  }

  lemma FormatterExamples()
    ensures Temp(Some(0.0)) == "32" + [Degree]
    ensures Temp(Some(100.0)) == "212" + [Degree]
    ensures Percent(Some(0.5)) == "50%"
    ensures Percent(Some(0.0)) == "0%"
    ensures Speed(Some(10.0)) == "6mph"
  {
    Rounding.RoundUnique(32.0, 32);
    Rounding.RoundUnique(212.0, 212);
    Rounding.RoundUnique(50.0, 50);
    Rounding.RoundUnique(0.0, 0);
    Rounding.RoundUnique(6.213712, 6);
  }

  // ---------------------------------------------------------------------
  // condition: camel-case condition codes made readable
  // ---------------------------------------------------------------------

  /** ASCII upper-case letters, standing in for `str.isupper` on one character. */
  predicate IsUpper(ch: char) {
    'A' <= ch <= 'Z'
  }

  /** What the loop appends for character `ch` at index `i`. */
  function Piece(i: nat, ch: char): string {
    if i > 0 && IsUpper(ch) then [' ', ch] else [ch]
  }

  /** The number of upper-case characters of `c` after its first character. */
  function Inserted(c: string): nat {
    if |c| <= 1 then 0
    else Inserted(c[..|c| - 1]) + (if IsUpper(c[|c| - 1]) then 1 else 0)
  }

  /** The text the loop of `condition` has built after consuming all of `c`. */
  function Prettify(c: string): (r: string)
    ensures |r| == |c| + Inserted(c)
  {
    if |c| == 0 then ""
    else Prettify(c[..|c| - 1]) + Piece(|c| - 1, c[|c| - 1])
  }

  /** `condition`: an absent code shows "?", a present one is prettified. */
  function Condition(c: Option<string>): (r: string)
    ensures c.None? ==> r == "?"
    ensures c.Some? ==> |r| == |c.value| + Inserted(c.value)
    ensures c.Some? ==> Strip(r) == c.value
    ensures c.Some? && |c.value| > 0 ==> r[0] == c.value[0]
  {
    match c
    case None => "?"
    case Some(code) =>
      StripPrettify(code);
      if |code| > 0 then PrettifyFirst(code); Prettify(code) else Prettify(code)
  }

  /** Where character `c[i]` lands in `Prettify(c)`. */
  function Pos(c: string, i: nat): nat
    requires i < |c|
  {
    i + Inserted(c[..i + 1])
  }

  /** Removes every space that stands immediately before an upper-case letter. */
  function Strip(r: string): string {
    if |r| == 0 then ""
    else if |r| >= 2 && r[|r| - 2] == ' ' && IsUpper(r[|r| - 1]) then Strip(r[..|r| - 2]) + [r[|r| - 1]]
    else Strip(r[..|r| - 1]) + [r[|r| - 1]]
  }

  /** Output already built is never revised: prettifying a prefix gives a prefix. */
  lemma {:induction false} PrettifyPrefix(c: string, k: nat)
    requires k <= |c|
    ensures Prettify(c[..k]) <= Prettify(c)
    decreases |c| - k
  {
    if k < |c| {
      var d := c[..|c| - 1];
      assert d[..k] == c[..k];
      PrettifyPrefix(d, k);
    } else {
      assert c[..k] == c;
    }
  }

  /**
    Each character of `c` keeps its place in order: it lands at `Pos(c, i)`,
    the first character stays first, and consecutive characters are adjacent
    except that exactly one inserted space separates an interior upper-case
    letter from its predecessor.
   */
  lemma PrettifyLayout(c: string, i: nat)
    requires i < |c|
    ensures Pos(c, i) < |Prettify(c)| && Prettify(c)[Pos(c, i)] == c[i]
    ensures i == 0 ==> Pos(c, i) == 0
    ensures i > 0 ==> Pos(c, i) == Pos(c, i - 1) + (if IsUpper(c[i]) then 2 else 1)
    ensures i > 0 && IsUpper(c[i]) ==> Prettify(c)[Pos(c, i) - 1] == ' '
    ensures i == |c| - 1 ==> |Prettify(c)| == Pos(c, i) + 1
  {
    var p := c[..i + 1];
    assert p[..i] == c[..i];
    assert Prettify(p) == Prettify(c[..i]) + Piece(i, c[i]);
    PrettifyPrefix(c, i + 1);
    if i == |c| - 1 {
      assert p == c;
    }
  }

  /** The first character of a non-empty code is kept, never a space inserted before it. */
  lemma PrettifyFirst(c: string)
    requires |c| > 0
    ensures |Prettify(c)| > 0 && Prettify(c)[0] == c[0]
  {
    PrettifyLayout(c, 0);
  }

  lemma SplitLast(c: string)
    requires |c| > 0
    ensures c[..|c| - 1] + [c[|c| - 1]] == c
  {
  }

  lemma StripSpaced(p: string, ch: char)
    requires IsUpper(ch)
    ensures Strip(p + [' ', ch]) == Strip(p) + [ch]
  {
    var r := p + [' ', ch];
    assert r[..|r| - 2] == p && r[|r| - 2] == ' ' && r[|r| - 1] == ch;
  }

  lemma StripPlain(p: string, ch: char)
    requires |p| == 0 || p[|p| - 1] != ' ' || !IsUpper(ch)
    ensures Strip(p + [ch]) == Strip(p) + [ch]
  {
    var r := p + [ch];
    assert r[..|r| - 1] == p && r[|r| - 1] == ch;
  }

  /** One step of the round trip: the last character of the code. */
  lemma StripPrettifyLast(c: string)
    requires |c| > 0 && Strip(Prettify(c[..|c| - 1])) == c[..|c| - 1]
    ensures Strip(Prettify(c)) == c
  {
    var n := |c| - 1;
    var ch := c[n];
    var p := Prettify(c[..n]);
    SplitLast(c);
    if n > 0 && IsUpper(ch) {
      assert Prettify(c) == p + [' ', ch];
      StripSpaced(p, ch);
    } else {
      assert Prettify(c) == p + [ch];
      if n == 0 {
        assert p == [];
      }
      StripPlain(p, ch);
    }
  }

  /** Deleting the inserted spaces gives back the original code exactly. */
  lemma {:induction false} StripPrettify(c: string)
    ensures Strip(Prettify(c)) == c
  {
    if |c| > 0 {
      StripPrettify(c[..|c| - 1]);
      StripPrettifyLast(c);
    }
  }

  /** Distinct codes never display alike. */
  lemma PrettifyInjective(a: string, b: string)
    requires Prettify(a) == Prettify(b)
    ensures a == b
  {
    StripPrettify(a);
    StripPrettify(b);
  }

  /** A code with no upper-case letter after its first character is shown unchanged. */
  lemma {:induction false} PrettifyNoInteriorUpper(c: string)
    requires forall i :: 1 <= i < |c| ==> !IsUpper(c[i])
    ensures Prettify(c) == c
  {
    if |c| > 0 {
      var n := |c| - 1;
      var d := c[..n];
      assert forall i :: 1 <= i < |d| ==> d[i] == c[i];
      PrettifyNoInteriorUpper(d);
      assert Piece(n, c[n]) == [c[n]];
      assert Prettify(c) == d + [c[n]];
      assert d + [c[n]] == c;
    }
  }

  /**
    Appending a capitalised word to a non-empty code appends one space and
    the word to its display.
   */
  lemma {:induction false} PrettifyAppendWord(a: string, w: string)
    requires |a| > 0 && |w| > 0 && IsUpper(w[0])
    requires forall i :: 1 <= i < |w| ==> !IsUpper(w[i])
    ensures Prettify(a + w) == Prettify(a) + " " + w
    decreases |w|
  {
    var front, last := w[..|w| - 1], w[|w| - 1];
    assert a + w == (a + front) + [last] by { assert w == front + [last]; }
    if |w| == 1 {
      assert a + front == a;
      PrettifySnoc(a, last);
    } else {
      assert !IsUpper(last);
      assert forall i :: 1 <= i < |front| ==> front[i] == w[i];
      PrettifyAppendWord(a, front);
      PrettifySnoc(a + front, last);
      assert Prettify(a) + " " + w == (Prettify(a) + " " + front) + [last] by { assert w == front + [last]; }
    }
  }

  /** One more character of the code adds exactly its piece to the display. */
  lemma PrettifySnoc(c: string, ch: char)
    ensures Prettify(c + [ch]) == Prettify(c) + Piece(|c|, ch)
  {
    var s := c + [ch];
    assert s[..|s| - 1] == c;
  }

  lemma ConditionExamples()
    ensures Condition(None) == "?"
    ensures Condition(Some("Clear")) == "Clear"
    ensures Condition(Some("PartlyCloudy")) == "Partly Cloudy"
  {
    PrettifyNoInteriorUpper("Clear");
    PrettifyNoInteriorUpper("Partly");
    PrettifyAppendWord("Partly", "Cloudy");
    assert "Partly" + "Cloudy" == "PartlyCloudy";
    assert "Partly" + " " + "Cloudy" == "Partly Cloudy";
  }
}
