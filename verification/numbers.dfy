/** Decimal numerals: Python's `str(n)` for integers, and `int(float(s))` on
    the plain decimal notation `[+|-]digits[.digits]` surrounded by optional
    whitespace. */
module Numbers {
  import opened Base
  import opened Strings

  predicate IsDigit(c: char) {
    '0' <= c <= '9'
  }

  predicate AllDigits(s: string) {
    forall i :: 0 <= i < |s| ==> IsDigit(s[i])
  }

  function DigitValue(c: char): (d: nat)
    requires IsDigit(c)
    ensures d < 10
  {
    c as int - '0' as int
  }

  function DigitChar(d: nat): (c: char)
    requires d < 10
    ensures IsDigit(c) && DigitValue(c) == d
  {
    ('0' as int + d) as char
  }

  /** The number a string of decimal digits denotes; the empty string
      denotes zero. */
  function DigitsValue(s: string): nat
    requires AllDigits(s)
  {
    if |s| == 0 then 0 else DigitsValue(s[..|s| - 1]) * 10 + DigitValue(s[|s| - 1])
  }

  /** Python's `str(n)` for a natural number: a non-empty digit string that
      denotes `n` and has no leading zero unless it is `"0"` itself. */
  function ShowNat(n: nat): (r: string)
    ensures r != [] && AllDigits(r) && DigitsValue(r) == n
    ensures r[0] == '0' ==> r == "0"
  {
    if n < 10 then [DigitChar(n)]
    else
      var p := ShowNat(n / 10);
      var r := p + [DigitChar(n % 10)];
      assert r[..|r| - 1] == p;
      r
  }

  /** Python's `str(i)` (and `f"{i}"`) for an integer: a minus sign exactly
      for negative numbers, then the digits of the magnitude. */
  function ShowInt(i: int): (r: string)
    ensures r != [] && (r[0] == '-' <==> i < 0)
    ensures i < 0 ==> AllDigits(r[1..]) && DigitsValue(r[1..]) == -i
    ensures i >= 0 ==> AllDigits(r) && DigitsValue(r) == i
    ensures var m := if i < 0 then r[1..] else r; m != [] && (m[0] == '0' ==> m == "0")
  {
    if i < 0 then
      var r := "-" + ShowNat(-i);
      assert r[1..] == ShowNat(-i);
      r
    else ShowNat(i)
  }

  datatype Sign = Unsigned | Plus | Minus

  /** The syntax of a plain decimal literal accepted by Python's `float()`:
      an optional sign, the digits before the point, and the digits after it
      when a point is written. */
  datatype Decimal = Decimal(sign: Sign, whole: string, frac: Option<string>) {

    /** At least one digit, and only digits around the point. */
    predicate Valid() {
      && AllDigits(whole)
      && (frac.Some? ==> AllDigits(frac.value))
      && (|whole| > 0 || (frac.Some? && |frac.value| > 0))
    }

    function Render(): string {
      SignText(sign) + whole + PointText(frac)
    }

    /** `int(float(x))`: the fractional part is dropped, rounding toward zero. */
    function Truncate(): int
      requires Valid()
    {
      if sign == Minus then -(DigitsValue(whole) as int) else DigitsValue(whole)
    }
  }

  function SignText(sign: Sign): string {
    match sign
    case Unsigned => ""
    case Plus => "+"
    case Minus => "-"
  }

  /** The point and fractional digits, when a point is written. */
  function PointText(frac: Option<string>): string {
    match frac
    case None => ""
    case Some(digits) => "." + digits
  }

  /** Splits an optional leading sign character off `t`. */
  function SplitSign(t: string): (r: (Sign, string))
    ensures SignText(r.0) + r.1 == t
  {
    if |t| > 0 && t[0] == '+' then (Plus, t[1..])
    else if |t| > 0 && t[0] == '-' then (Minus, t[1..])
    else (Unsigned, t)
  }

  /** Reads the unsigned part of a literal: digits, optionally a point and
      more digits, at least one digit in all. */
  function ReadBody(sign: Sign, body: string): (r: Option<Decimal>)
    ensures r.Some? ==> r.value.Valid() && r.value.sign == sign
                        && r.value.whole + PointText(r.value.frac) == body
  {
    match LastIndexOf(body, '.')
    case None =>
      if |body| > 0 && AllDigits(body) then
        assert body + PointText(None) == body;
        Some(Decimal(sign, body, None))
      else None
    case Some(k) =>
      var w := body[..k];
      var f := body[k + 1..];
      assert body == w + ("." + f);
      if AllDigits(w) && AllDigits(f) && |w| + |f| > 0 then Some(Decimal(sign, w, Some(f))) else None
  }

  /** Reads `t` as a plain decimal literal, with nothing around it. */
  function ReadDecimal(t: string): (r: Option<Decimal>)
    ensures r.Some? ==> r.value.Valid() && r.value.Render() == t
  {
    var (sign, body) := SplitSign(t);
    var r := ReadBody(sign, body);
    assert r.Some? ==> r.value.Render() == SignText(sign) + (r.value.whole + PointText(r.value.frac));
    r
  }

  /** A string of digits contains no decimal point. */
  lemma DigitsHaveNoPoint(s: string)
    requires AllDigits(s)
    ensures '.' !in s
  {
    forall i | 0 <= i < |s| ensures s[i] != '.' {
      assert IsDigit(s[i]);
    }
  }

  /** The sign of a rendered literal is split off as written. */
  lemma SplitRenderedSign(d: Decimal)
    requires d.Valid()
    ensures SplitSign(d.Render()) == (d.sign, d.whole + PointText(d.frac))
  {
    var t := d.Render();
    var body := d.whole + PointText(d.frac);
    if d.sign != Unsigned {
      assert t == SignText(d.sign) + body;
      assert t[1..] == body;
    } else {
      assert t == body;
      if |d.whole| > 0 {
        assert t[0] == d.whole[0];
        assert IsDigit(d.whole[0]);
      } else {
        assert t[0] == '.';
      }
    }
  }

  /** Every valid literal is read back as itself. */
  lemma ReadRender(d: Decimal)
    requires d.Valid()
    ensures ReadDecimal(d.Render()) == Some(d)
  {
    SplitRenderedSign(d);
    DigitsHaveNoPoint(d.whole);
    var body := d.whole + PointText(d.frac);
    match d.frac
    case None =>
      assert body == d.whole;
    case Some(f) =>
      DigitsHaveNoPoint(f);
      assert body == d.whole + "." + f;
      assert body[|d.whole|] == '.';
      assert body[|d.whole| + 1..] == f;
      LastIndexOfUnique(body, '.', |d.whole|);
      assert body[..|d.whole|] == d.whole;
  }

  /** Python's `int(float(s))` on plain decimal notation: the whitespace
      `float()` ignores around a number is skipped, and a value exists only
      when the rest is a valid literal, whose value with the fraction dropped
      it is. */
  function ParseDecimal(s: string): (r: Option<int>)
    ensures r.Some? ==> exists d: Decimal :: d.Valid() && d.Render() == StripChars(s, FloatWhitespace) && r.value == d.Truncate()
  {
    match ReadDecimal(StripChars(s, FloatWhitespace))
    case None => None
    case Some(d) => Some(d.Truncate())
  }

  /** A valid literal, however padded with the whitespace `float()` ignores,
      parses to its truncated value. */
  lemma ParseRendered(lead: string, d: Decimal, trail: string)
    requires AllIn(lead, FloatWhitespace) && AllIn(trail, FloatWhitespace) && d.Valid()
    ensures ParseDecimal(lead + d.Render() + trail) == Some(d.Truncate())
  {
    RenderedIsTrimmed(d);
    StripPadded(lead, d.Render(), trail, FloatWhitespace);
    ReadRender(d);
  }

  /** A rendered literal is non-empty and has no outer whitespace of either
      kind. */
  lemma RenderedIsTrimmed(d: Decimal)
    requires d.Valid()
    ensures var t := d.Render();
            && t != [] && t[0] !in Whitespace && t[|t| - 1] !in Whitespace
            && t[0] !in FloatWhitespace && t[|t| - 1] !in FloatWhitespace
  {
    var t := d.Render();
    if d.frac.Some? && |d.frac.value| > 0 {
      assert t[|t| - 1] == d.frac.value[|d.frac.value| - 1];
    } else if d.frac.Some? {
      assert t[|t| - 1] == '.';
    } else {
      assert t[|t| - 1] == d.whole[|d.whole| - 1];
    }
    if d.sign == Unsigned && |d.whole| > 0 {
      assert t[0] == d.whole[0];
    }
  }

  /** The literal `str(i)` followed by the point text `frac`. */
  function IntDecimal(i: int, frac: Option<string>): (d: Decimal)
    requires frac.Some? ==> AllDigits(frac.value)
    ensures d.Valid() && d.Truncate() == i
    ensures d.Render() == ShowInt(i) + PointText(frac)
  {
    var s := ShowInt(i);
    if i < 0 then
      assert s == "-" + s[1..];
      Decimal(Minus, s[1..], frac)
    else Decimal(Unsigned, s, frac)
  }

  /** A valid literal parses to its truncated value. */
  lemma ParseLiteral(d: Decimal)
    requires d.Valid()
    ensures ParseDecimal(d.Render()) == Some(d.Truncate())
  {
    RenderedIsTrimmed(d);
    StripTrimmed(d.Render(), FloatWhitespace);
    ReadRender(d);
  }

  /** Reading back what `str(i)` writes gives `i`. */
  lemma ParseShowInt(i: int)
    ensures ParseDecimal(ShowInt(i)) == Some(i)
  {
    var d := IntDecimal(i, None);
    assert d.Render() == ShowInt(i) + "";
    assert ShowInt(i) + "" == ShowInt(i);
    ParseLiteral(d);
  }

  /** `int(float(str(i) + "." + f))` is `i`: the fraction is cut off, toward
      zero for negative values too. */
  lemma ParseDropsFraction(i: int, f: string)
    requires AllDigits(f)
    ensures ParseDecimal(ShowInt(i) + "." + f) == Some(i)
  {
    var d := IntDecimal(i, Some(f));
    assert d.Render() == ShowInt(i) + ("." + f);
    assert ShowInt(i) + ("." + f) == ShowInt(i) + "." + f;
    ParseLiteral(d);
  }

  /** Text made only of whitespace, of either kind, is not a number:
      `float()` raises `ValueError` on it. */
  lemma ParseBlank(s: string)
    requires AllIn(s, Whitespace)
    ensures ParseDecimal(s) == None
  {
    var r := StripChars(s, FloatWhitespace);
    if ReadDecimal(r).Some? {
      RenderedIsTrimmed(ReadDecimal(r).value);
    }
  }

  /** `float()` keeps the ASCII separators U+001C to U+001F, which
      `str.strip()` drops: a number followed by one does not parse. */
  lemma SeparatorNotSkipped(n: nat)
    ensures ParseDecimal(ShowNat(n) + "\U{1C}") == None
  {
    var digits := ShowNat(n);
    var s := digits + "\U{1C}";
    assert s[0] == digits[0] && IsDigit(s[0]);
    assert s[|s| - 1] == '\U{1C}';
    StripTrimmed(s, FloatWhitespace);
    assert SplitSign(s) == (Unsigned, s);
    assert '.' !in s by {
      DigitsHaveNoPoint(digits);
      assert forall i :: 0 <= i < |digits| ==> s[i] == digits[i];
    }
    assert !AllDigits(s) by { assert !IsDigit(s[|s| - 1]); }
  }
}
