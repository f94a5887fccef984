/** Decimal text for numbers: how the catalog's integers and two-decimal
    magnitudes are written into CSV text, and Python's `int()` and `float()`
    reading them back, restricted to plain decimal notation. */
module Numerals {
  import opened Outcomes
  import opened Strings

  predicate IsDigit(c: char) {
    '0' <= c <= '9'
  }

  predicate AllDigits(s: string) {
    forall k :: 0 <= k < |s| ==> IsDigit(s[k])
  }

  /** True of a rendered number: not empty, trimmed, and holding no CSV
      field or line separator. */
  predicate IsField(s: string) {
    |s| >= 1 && Trimmed(s) && ',' !in s && '\n' !in s
  }

  function DigitChar(d: nat): (c: char)
    requires d < 10
    ensures IsDigit(c) && c as int - '0' as int == d
  {
    ('0' as int + d) as char
  }

  /** The value of a string of decimal digits, most significant digit first. */
  function DigitsValue(s: string): nat
    requires AllDigits(s)
    decreases |s|
  {
    if |s| == 0 then 0
    else DigitsValue(s[..|s| - 1]) * 10 + (s[|s| - 1] as int - '0' as int)
  }

  function Pow10(n: nat): (p: nat)
    ensures p >= 1
  {
    if n == 0 then 1 else 10 * Pow10(n - 1)
  }

  /** `str(n)` for a natural number: digits only, a leading zero only for
      zero itself, and the digits read back as `n`. */
  function Decimal(n: nat): (s: string)
    ensures |s| >= 1 && AllDigits(s)
    ensures s[0] == '0' <==> n == 0
    ensures DigitsValue(s) == n
    decreases n
  {
    if n < 10 then [DigitChar(n)]
    else
      var front := Decimal(n / 10);
      var s := front + [DigitChar(n % 10)];
      assert s[..|s| - 1] == front;
      s
  }

  /** `str(i)` for an integer: a minus sign before the digits of a negative. */
  function RenderInt(i: int): (s: string)
    ensures IsField(s)
  {
    var s := if i < 0 then "-" + Decimal(-i) else Decimal(i);
    assert forall k :: 0 <= k < |s| ==> IsDigit(s[k]) || s[k] == '-';
    s
  }

  /** `int(text)`: surrounding whitespace, an optional sign and at least one
      digit; anything else is rejected. */
  function ParseInt(text: string): (r: Option<int>)
    ensures Strip(text) == [] ==> r == None
  {
    var t := Strip(text);
    if |t| >= 2 && (t[0] == '-' || t[0] == '+') && AllDigits(t[1..]) then
      Some(if t[0] == '-' then -(DigitsValue(t[1..]) as int) else DigitsValue(t[1..]))
    else if |t| >= 1 && AllDigits(t) then Some(DigitsValue(t))
    else None
  }

  /** Round trip: `int(str(i)) == i`. */
  lemma ParseRenderInt(i: int)
    ensures ParseInt(RenderInt(i)) == Some(i)
  {
    var s := RenderInt(i);
    assert Strip(s) == s;
    if i < 0 {
      assert s[1..] == Decimal(-i);
    }
  }

  /** The number `c` hundredths stand for. */
  function Centi(c: int): real {
    c as real / 100.0
  }

  /** The two decimals of a fraction held in hundredths. */
  function Hundredths(m: nat): (s: string)
    requires m < 100
    ensures |s| == 2 && AllDigits(s) && DigitsValue(s) == m
  {
    var s := [DigitChar(m / 10), DigitChar(m % 10)];
    assert s[..1][..0] == [];
    assert s[..1] == [DigitChar(m / 10)];
    assert DigitsValue(s[..1]) == m / 10;
    assert DigitsValue(s) == (m / 10) * 10 + m % 10;
    s
  }

  /** The unsigned text of `a` hundredths: the integral part, a point and
      two decimals. */
  function CentiDigits(a: nat): string {
    Decimal(a / 100) + "." + Hundredths(a % 100)
  }

  /** The two-decimal text this model writes for `c / 100`, a magnitude held
      in hundredths: an optional minus sign before the unsigned text. */
  function RenderCenti(c: int): (s: string)
    ensures IsField(s)
  {
    var body := CentiDigits(if c < 0 then -c else c);
    var s := if c < 0 then "-" + body else body;
    assert forall k :: 0 <= k < |s| ==> IsDigit(s[k]) || s[k] == '-' || s[k] == '.';
    s
  }

  /** An unsigned decimal: digits, or digits, a point and digits, with at
      least one digit in all. */
  function ParseUnsigned(t: string): (r: Option<real>)
    ensures r.Some? ==> r.value >= 0.0
  {
    var parts := Split(t, '.');
    if |parts| == 1 && |t| >= 1 && AllDigits(t) then Some(DigitsValue(t) as real)
    else if |parts| == 2 && AllDigits(parts[0]) && AllDigits(parts[1]) && |parts[0]| + |parts[1]| >= 1 then
      Some(DigitsValue(parts[0]) as real + DigitsValue(parts[1]) as real / Pow10(|parts[1]|) as real)
    else None
  }

  /** `float(text)`: surrounding whitespace, an optional sign and an unsigned
      decimal; anything else is rejected. */
  function ParseFloat(text: string): (r: Option<real>)
    ensures Strip(text) == [] ==> r == None
  {
    var t := Strip(text);
    if |t| >= 1 && (t[0] == '-' || t[0] == '+') then
      match ParseUnsigned(t[1..])
      case None => None
      case Some(v) => Some(if t[0] == '-' then -v else v)
    else ParseUnsigned(t)
  }

  /** The unsigned text of `a` hundredths reads back as `a / 100`. */
  lemma {:induction false} ParseCentiDigits(a: nat)
    ensures ParseUnsigned(CentiDigits(a)) == Some(a as real / 100.0)
  {
    var whole, frac := Decimal(a / 100), Hundredths(a % 100);
    assert '.' !in whole && '.' !in frac;
    assert CentiDigits(a) == Join([whole, frac], '.');
    SplitJoin([whole, frac], '.');
    assert Pow10(2) == 100;
    assert (a / 100) * 100 + a % 100 == a;
    assert (a / 100) as real + (a % 100) as real / 100.0 == a as real / 100.0;
  }

  /** `float()` of a trimmed text that starts with a digit is the unsigned
      reading of it, and with a minus sign the negated reading of the rest. */
  lemma ParseFloatTrimmed(t: string)
    requires |t| >= 2 && Trimmed(t)
    ensures IsDigit(t[0]) ==> ParseFloat(t) == ParseUnsigned(t)
    ensures t[0] == '-' && ParseUnsigned(t[1..]).Some? ==>
      ParseFloat(t) == Some(-ParseUnsigned(t[1..]).value)
  {
    assert Strip(t) == t;
  }

  /** Round trip: a magnitude written with two decimals reads back as the
      same number of hundredths. */
  lemma {:induction false} ParseRenderCenti(c: int)
    ensures ParseFloat(RenderCenti(c)) == Some(Centi(c))
  {
    var a := if c < 0 then -c else c;
    var body := CentiDigits(a);
    ParseCentiDigits(a);
    assert IsDigit(body[0]) && |body| >= 4;
    if c < 0 {
      var s := "-" + body;
      assert s[1..] == body;
      ParseFloatTrimmed(s);
    } else {
      ParseFloatTrimmed(body);
    }
  }
}
