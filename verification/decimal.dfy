/**
  Decimal rendering of integers as Python's `str(int)` and the `:0<width>`
  format specification produce it, together with a parser that serves as
  the independent partner of every rendering function.
 */
module Decimal {
  import opened Wrappers

  predicate IsDigit(ch: char) {
    '0' <= ch <= '9'
  }

  predicate AllDigits(s: string) {
    forall i :: 0 <= i < |s| ==> IsDigit(s[i])
  }

  function DigitChar(d: nat): (ch: char)
    requires d < 10
    ensures IsDigit(ch)
  {
    ('0' as int + d) as char
  }

  /** The number a string of decimal digits denotes, most significant digit first. */
  function Value(s: string): nat
    requires AllDigits(s)
  {
    if |s| == 0 then 0
    else Value(s[..|s| - 1]) * 10 + (s[|s| - 1] as int - '0' as int)
  }

  /** The value of a two- or three-digit string, digit by digit. */
  lemma ValueSmall(s: string)
    requires AllDigits(s) && 2 <= |s| <= 3
    ensures |s| == 2 ==> Value(s) == 10 * (s[0] as int - '0' as int) + (s[1] as int - '0' as int)
    ensures |s| == 3 ==> Value(s) == 100 * (s[0] as int - '0' as int) + 10 * (s[1] as int - '0' as int)
                                    + (s[2] as int - '0' as int)
  {
    var d0, d1 := s[0] as int - '0' as int, s[1] as int - '0' as int;
    assert s[..2][..1] == s[..1] && s[..1][..0] == [];
    assert Value(s[..1]) == d0;
    assert Value(s[..2]) == 10 * d0 + d1;
    if |s| == 2 {
      assert s[..2] == s;
    } else {
      assert s[..3] == s;
      assert s[..3][..2] == s[..2];
    }
  }

  function Pow10(k: nat): (p: nat)
    ensures p >= 1
  {
    if k == 0 then 1 else 10 * Pow10(k - 1)
  }

  /** The shortest decimal numeral of `n`: no leading zero except for zero itself. */
  function Digits(n: nat): (s: string)
    ensures 1 <= |s| && AllDigits(s)
    ensures Value(s) == n
    ensures s[0] == '0' <==> n == 0
    ensures |s| == 1 || s[0] != '0'
    ensures n < Pow10(|s|)
  {
    if n < 10 then [DigitChar(n)]
    else
      var s := Digits(n / 10) + [DigitChar(n % 10)];
      assert s[..|s| - 1] == Digits(n / 10);
      s
  }

  /** Reads an optional minus sign followed by one or more decimal digits. */
  function Parse(s: string): (r: Option<int>)
    ensures r.Some? ==> |s| > 0
  {
    if |s| > 0 && s[0] == '-' then
      if |s| > 1 && AllDigits(s[1..]) then var v: int := Value(s[1..]); Some(-v) else None
    else if |s| > 0 && AllDigits(s) then Some(Value(s))
    else None
  }

  /**
    A numeral without redundant characters: an optional minus sign, then
    digits that start with a zero only when the zero is the whole of them.
   */
  predicate Canonical(s: string) {
    && |s| > 0
    && if s[0] == '-' then |s| >= 2 && s[1] != '0' else |s| == 1 || s[0] != '0'
  }

  /** Python's `str(n)` for an integer `n`. */
  function FromInt(n: int): (s: string)
    ensures Parse(s) == Some(n)
    ensures Canonical(s)
    ensures |s| > 0 && (s[0] == '-' <==> n < 0)
  {
    if n < 0 then
      var s := "-" + Digits(-n);
      assert s[1..] == Digits(-n);
      s
    else Digits(n)
  }

  /** A digit string without a leading zero is the numeral of its own value. */
  lemma {:induction false} DigitsOfValue(s: string)
    requires AllDigits(s) && |s| > 0 && (|s| == 1 || s[0] != '0')
    ensures s == Digits(Value(s))
    decreases |s|
  {
    var last := s[|s| - 1];
    var d := last as int - '0' as int;
    assert DigitChar(d) == last;
    if |s| == 1 {
      assert s[..0] == [];
      assert Value(s) == d;
    } else {
      var prefix := s[..|s| - 1];
      assert prefix[0] == s[0];
      DigitsOfValue(prefix);
      var m := Value(prefix);
      assert m != 0;
      assert Value(s) == m * 10 + d;
      assert Value(s) / 10 == m && Value(s) % 10 == d;
      assert s == prefix + [last];
    }
  }

  /**
    The canonical numeral of a number is unique: any canonical string that
    reads as `n` is exactly Python's `str(n)`.
   */
  lemma CanonicalUnique(s: string, n: int)
    requires Canonical(s) && Parse(s) == Some(n)
    ensures s == FromInt(n)
  {
    if s[0] == '-' {
      var body := s[1..];
      assert body[0] == s[1];
      DigitsOfValue(body);
      var v: int := Value(body);
      assert n == -v;
      assert v != 0;
      assert FromInt(n) == "-" + Digits(Value(body));
      assert s == [s[0]] + body;
    } else {
      DigitsOfValue(s);
    }
  }

  function Zeros(k: nat): (s: string)
    ensures |s| == k && AllDigits(s)
  {
    if k == 0 then "" else Zeros(k - 1) + "0"
  }

  lemma {:induction false} ZerosValue(k: nat)
    ensures Value(Zeros(k)) == 0
  {
    if k > 0 {
      assert Zeros(k)[..k - 1] == Zeros(k - 1);
      ZerosValue(k - 1);
    }
  }

  /** Leading zeros do not change the value of a digit string. */
  lemma {:induction false} LeadingZerosValue(k: nat, s: string)
    requires AllDigits(s)
    ensures AllDigits(Zeros(k) + s)
    ensures Value(Zeros(k) + s) == Value(s)
  {
    var z := Zeros(k) + s;
    if |s| == 0 {
      assert z == Zeros(k);
      ZerosValue(k);
    } else {
      assert z[..|z| - 1] == Zeros(k) + s[..|s| - 1];
      LeadingZerosValue(k, s[..|s| - 1]);
    }
  }

  /** Pads a digit string with zeros on the left up to `width` characters. */
  function PadLeft(s: string, width: nat): (r: string)
    requires AllDigits(s)
    ensures AllDigits(r)
    ensures |r| == if width > |s| then width else |s|
    ensures Value(r) == Value(s)
  {
    var k := if width > |s| then width - |s| else 0;
    LeadingZerosValue(k, s);
    Zeros(k) + s
  }

  /**
    Python's `format(n, "0<width>")`: the width is a minimum that counts the
    sign, and zeros go between the sign and the digits.
   */
  function ZeroPad(n: int, width: nat): (s: string)
    ensures Parse(s) == Some(n)
    ensures |s| > 0 && (s[0] == '-' <==> n < 0)
    ensures |s| == if width > |FromInt(n)| then width else |FromInt(n)|
    ensures |s| >= width
  {
    if n < 0 then
      var s := "-" + PadLeft(Digits(-n), if width > 0 then width - 1 else 0);
      assert s[1..] == PadLeft(Digits(-n), if width > 0 then width - 1 else 0);
      s
    else PadLeft(Digits(n), width)
  }

  lemma {:induction false} DigitsFit(n: nat, width: nat)
    requires 1 <= width && n < Pow10(width)
    ensures |Digits(n)| <= width
  {
    if n >= 10 {
      assert width >= 2;
      assert n / 10 < Pow10(width - 1);
      DigitsFit(n / 10, width - 1);
    }
  }

  /** A number below 10^width renders in exactly `width` digits and reads back. */
  lemma ZeroPadFixedWidth(n: nat, width: nat)
    requires 1 <= width && n < Pow10(width)
    ensures |ZeroPad(n, width)| == width
    ensures AllDigits(ZeroPad(n, width)) && Value(ZeroPad(n, width)) == n
  {
    DigitsFit(n, width);
  }
}
