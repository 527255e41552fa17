/**
 * Python's `float(text)` and `int(text)` on the plain decimal notation the
 * answer keys and rank tables use: surrounding whitespace, an optional sign,
 * digits, and (for `float`) at most one decimal point.
 */
module PyNumber {
  import opened Base
  import opened PyText

  predicate AllDigits(s: string) {
    forall i :: 0 <= i < |s| ==> IsDigit(s[i])
  }

  function DigitValue(c: char): (r: nat)
    requires IsDigit(c)
    ensures r < 10
  {
    (c as int) - ('0' as int)
  }

  /** The value of a run of decimal digits, most significant digit first. */
  function DigitsValue(ds: string): nat
    requires AllDigits(ds)
    decreases |ds|
  {
    if |ds| == 0 then 0 else DigitsValue(ds[..|ds| - 1]) * 10 + DigitValue(ds[|ds| - 1])
  }

  /** The value of the digits after a decimal point: `0.d1d2...`. */
  function FractionValue(ds: string): (r: real)
    requires AllDigits(ds)
    ensures 0.0 <= r <= 1.0
    decreases |ds|
  {
    if |ds| == 0 then 0.0 else (DigitValue(ds[0]) as real + FractionValue(ds[1..])) / 10.0
  }

  /** The characters a text that reads as a decimal number can consist of. */
  predicate IsNumeralChar(c: char) {
    IsDigit(c) || c == '.' || c == '+' || c == '-'
  }

  /** Digits with at most one decimal point and at least one digit: `12`, `3.99`, `5.`, `.5`. */
  function UnsignedDecimal(t: string): (r: Option<real>)
    ensures r.Some? ==> |t| > 0 && forall i :: 0 <= i < |t| ==> IsDigit(t[i]) || t[i] == '.'
    ensures r.Some? ==> r.value >= 0.0
  {
    match Find(t, ".")
    case None =>
      if |t| > 0 && AllDigits(t) then Some(DigitsValue(t) as real) else None
    case Some(i) =>
      var ip, fp := t[..i], t[i + 1..];
      assert t[i..i + 1] == ".";
      assert t == ip + "." + fp;
      if |ip| + |fp| > 0 && AllDigits(ip) && AllDigits(fp) then
        Some(DigitsValue(ip) as real + FractionValue(fp))
      else None
  }

  /** A stripped text read as a decimal number: an optional sign, then an unsigned decimal. */
  function ParseDecimal(t: string): (r: Option<real>)
    ensures r.Some? ==> |t| > 0 && forall i :: 0 <= i < |t| ==> IsNumeralChar(t[i])
  {
    if |t| > 0 && (t[0] == '+' || t[0] == '-') then
      match UnsignedDecimal(t[1..])
      case None => None
      case Some(v) => Some(if t[0] == '-' then -v else v)
    else
      UnsignedDecimal(t)
  }

  /** `float(s)`: `None` where Python raises `ValueError`. */
  function ParseReal(s: string): (r: Option<real>)
    ensures r.Some? ==> |Strip(s)| > 0 && forall i :: 0 <= i < |Strip(s)| ==> IsNumeralChar(Strip(s)[i])
  {
    ParseDecimal(Strip(s))
  }

  /** `int(s)`: `None` where Python raises `ValueError`. */
  function ParseInt(s: string): (r: Option<int>)
    ensures r.Some? ==> |Strip(s)| > 0 && forall i :: 0 <= i < |Strip(s)| ==> IsNumeralChar(Strip(s)[i])
  {
    var t := Strip(s);
    if |t| > 0 && (t[0] == '+' || t[0] == '-') then
      var ds := t[1..];
      if |ds| > 0 && AllDigits(ds) then
        Some(if t[0] == '-' then -(DigitsValue(ds) as int) else DigitsValue(ds) as int)
      else None
    else if |t| > 0 && AllDigits(t) then Some(DigitsValue(t) as int)
    else None
  }

  /** The decimal digits of `n`, without sign or leading zeros: `str(n)`. */
  function DecimalText(n: nat): (r: string)
    ensures |r| > 0 && AllDigits(r)
    decreases n
  {
    var d := [('0' as int + n % 10) as char];
    if n < 10 then d else DecimalText(n / 10) + d
  }

  lemma {:induction false} DigitsValueOfText(n: nat)
    ensures DigitsValue(DecimalText(n)) == n
    decreases n
  {
    var d := [('0' as int + n % 10) as char];
    if n >= 10 {
      var t := DecimalText(n / 10) + d;
      assert t[..|t| - 1] == DecimalText(n / 10);
      DigitsValueOfText(n / 10);
    }
  }

  /** Digits are not whitespace, so stripping leaves a digit run, signed or not, alone. */
  lemma StripDigits(t: string)
    requires |t| > 0 && AllDigits(t)
    ensures Strip(t) == t && Strip("-" + t) == "-" + t
  {
    var first, last := t[0], t[|t| - 1];
    DigitNotSpace(first);
    DigitNotSpace(last);
    StripKeeps(t);
    StripSigned(t, last);
  }

  /** A leading minus sign is not whitespace either. */
  lemma StripSigned(t: string, last: char)
    requires |t| > 0 && last == t[|t| - 1] && !IsSpace(last)
    ensures Strip("-" + t) == "-" + t
  {
    var u := "-" + t;
    assert u[0] == '-' && u[|u| - 1] == last;
    StripKeeps(u);
  }

  /** `float(str(n))` and `float("-" + str(n))` give `n` and `-n` back. */
  lemma ParseRealText(n: nat)
    ensures ParseReal(DecimalText(n)) == Some(n as real)
    ensures ParseReal("-" + DecimalText(n)) == Some(-(n as real))
  {
    var t := DecimalText(n);
    DigitsValueOfText(n);
    StripDigits(t);
    FindAbsent(t, ".");
    assert UnsignedDecimal(t) == Some(n as real);
    assert ("-" + t)[1..] == t;
    assert ParseDecimal("-" + t) == Some(-(n as real));
  }

  /** `int(str(n))` and `int("-" + str(n))` give `n` and `-n` back. */
  lemma ParseIntText(n: nat)
    ensures ParseInt(DecimalText(n)) == Some(n)
    ensures ParseInt("-" + DecimalText(n)) == Some(-(n as int))
  {
    var t := DecimalText(n);
    DigitsValueOfText(n);
    StripDigits(t);
    assert ("-" + t)[1..] == t;
  }
}
