/**
 * The numeric normaliser: `pd.to_numeric(x.astype(str).str.replace(',', '').str.strip(),
 * errors='coerce')`, with the library parse replaced by a small decimal grammar:
 * an optional '-', one or more digits, and optionally '.' followed by one or more digits.
 */
module Numbers {
  import opened Wrappers
  import opened Strings

  predicate IsDigit(c: char) {
    '0' <= c <= '9'
  }

  predicate AllDigits(s: string) {
    forall i :: 0 <= i < |s| ==> IsDigit(s[i])
  }

  function DigitValue(c: char): nat
    requires IsDigit(c)
  {
    c as int - '0' as int
  }

  /** The base-ten value of a run of digits, most significant first. */
  function DigitsValue(s: string): nat
    requires AllDigits(s)
  {
    if s == [] then 0 else DigitsValue(s[..|s| - 1]) * 10 + DigitValue(s[|s| - 1])
  }

  function Pow10(n: nat): (r: nat)
    ensures r >= 1
  {
    if n == 0 then 1 else 10 * Pow10(n - 1)
  }

  /** Characters a numeral may contain: digits, '.', and '-' in first position only. */
  predicate NumeralShaped(s: string) {
    |s| > 0 &&
    (forall i :: 0 <= i < |s| ==> IsDigit(s[i]) || s[i] == '.' || (i == 0 && s[i] == '-'))
  }

  /** Digits, optionally followed by '.' and more digits; no sign. */
  function ParseUnsigned(s: string): (r: Option<real>)
    ensures r.Some? ==> |s| > 0 && forall i :: 0 <= i < |s| ==> IsDigit(s[i]) || s[i] == '.'
    ensures r.Some? ==> r.value >= 0.0
  {
    match FirstIndex(s, c => c == '.')
    case None =>
      if |s| > 0 && AllDigits(s) then Some(DigitsValue(s) as real) else None
    case Some(k) =>
      var whole, frac := s[..k], s[k + 1..];
      if |whole| > 0 && |frac| > 0 && AllDigits(whole) && AllDigits(frac) then
        assert forall i :: 0 <= i < |s| ==> (i < k ==> s[i] == whole[i]) && (i > k ==> s[i] == frac[i - k - 1]);
        Some(DigitsValue(whole) as real + DigitsValue(frac) as real / Pow10(|frac|) as real)
      else None
  }

  /** The stand-in for `pd.to_numeric(..., errors='coerce')` on one string. */
  function ParseDecimal(s: string): (r: Option<real>)
    ensures r.Some? ==> NumeralShaped(s)
    ensures s == [] ==> r == None
  {
    if |s| > 0 && s[0] == '-' then
      match ParseUnsigned(s[1..])
      case Some(x) =>
        assert forall i :: 1 <= i < |s| ==> s[i] == s[1..][i - 1];
        Some(-x)
      case None => None
    else
      ParseUnsigned(s)
  }

  /** Commas removed, then whitespace trimmed, then parsed; failure gives None (NaN). */
  function NormaliseText(s: string): (r: Option<real>)
    ensures r.Some? ==> NumeralShaped(Strip(RemoveCommas(s)))
    ensures AllSpace(RemoveCommas(s)) ==> r == None
  {
    ParseDecimal(Strip(RemoveCommas(s)))
  }

  /** Decimal digits of a natural number, as `str(n)` writes them. */
  function NatText(n: nat): (r: string)
    ensures |r| > 0 && AllDigits(r) && DigitsValue(r) == n
  {
    var d := ('0' as int + n % 10) as char;
    if n < 10 then
      assert [d][..0] == [];
      [d]
    else
      var a := NatText(n / 10);
      assert (a + [d])[..|a|] == a;
      a + [d]
  }

  /** A numeral in the grammar: optional sign, the digits `whole`, then '.' and `frac` if any. */
  function Numeral(negative: bool, whole: string, frac: string): string
    requires |whole| > 0 && AllDigits(whole) && AllDigits(frac)
  {
    var u := Unsigned(whole, frac);
    if negative then "-" + u else u
  }

  /** The unsigned part of a numeral: `whole`, then '.' and `frac` if any. */
  function Unsigned(whole: string, frac: string): string {
    if frac == [] then whole else whole + "." + frac
  }

  /** The value a numeral denotes. */
  function NumeralValue(negative: bool, whole: string, frac: string): real
    requires AllDigits(whole) && AllDigits(frac)
  {
    var v := DigitsValue(whole) as real + DigitsValue(frac) as real / Pow10(|frac|) as real;
    if negative then -v else v
  }

  lemma UnsignedNumeral(whole: string, frac: string)
    requires |whole| > 0 && AllDigits(whole) && AllDigits(frac)
    ensures ParseUnsigned(Unsigned(whole, frac))
            == Some(NumeralValue(false, whole, frac))
  {
    var u := Unsigned(whole, frac);
    var isDot := (c: char) => c == '.';
    if frac == [] {
      assert u == whole;
      assert FirstIndex(u, isDot) == None;
    } else {
      assert forall j :: 0 <= j < |whole| ==> u[j] == whole[j];
      assert u[|whole|] == '.';
      var k := FirstIndex(u, isDot);
      assert k == Some(|whole|);
      assert u[..|whole|] == whole;
      assert u[|whole| + 1..] == frac;
    }
  }

  /** A sign in front of an unsigned numeral negates its value. */
  lemma ParseSigned(u: string, x: real)
    requires ParseUnsigned(u) == Some(x) && |u| > 0 && u[0] != '-'
    ensures ParseDecimal(u) == Some(x) && ParseDecimal("-" + u) == Some(-x)
  {
    assert ("-" + u)[0] == '-';
    assert ("-" + u)[1..] == u;
  }

  /** Round trip: every numeral of the grammar parses back to the value it denotes. */
  lemma ParseNumeral(negative: bool, whole: string, frac: string)
    requires |whole| > 0 && AllDigits(whole) && AllDigits(frac)
    ensures ParseDecimal(Numeral(negative, whole, frac)) == Some(NumeralValue(negative, whole, frac))
  {
    var u := Unsigned(whole, frac);
    UnsignedNumeral(whole, frac);
    assert u[0] == whole[0];
    var x := NumeralValue(false, whole, frac);
    ParseSigned(u, x);
    if negative {
      assert Numeral(true, whole, frac) == "-" + u;
      assert NumeralValue(true, whole, frac) == -x;
    } else {
      assert Numeral(false, whole, frac) == u;
    }
  }

  /** `s` is a numeral of the grammar that denotes `v`. */
  ghost predicate Denotes(s: string, v: real) {
    exists negative, whole, frac ::
      && |whole| > 0 && AllDigits(whole) && AllDigits(frac)
      && s == Numeral(negative, whole, frac) && v == NumeralValue(negative, whole, frac)
  }

  /** Every string the unsigned parser accepts is an unsigned numeral, read at its value. */
  lemma ParseUnsignedSound(s: string)
    requires ParseUnsigned(s).Some?
    ensures exists whole, frac ::
      && |whole| > 0 && AllDigits(whole) && AllDigits(frac)
      && s == Unsigned(whole, frac) && ParseUnsigned(s).value == NumeralValue(false, whole, frac)
  {
    match FirstIndex(s, c => c == '.')
    case None =>
      assert s == Unsigned(s, "");
      assert NumeralValue(false, s, "") == DigitsValue(s) as real;
    case Some(k) =>
      var whole, frac := s[..k], s[k + 1..];
      assert s == whole + "." + frac;
      assert s == Unsigned(whole, frac);
  }

  /** Every string the parser accepts is a numeral of the grammar, read at the value it denotes. */
  lemma ParseDecimalSound(s: string)
    requires ParseDecimal(s).Some?
    ensures Denotes(s, ParseDecimal(s).value)
  {
    if |s| > 0 && s[0] == '-' {
      var u := s[1..];
      ParseUnsignedSound(u);
      var whole, frac :| |whole| > 0 && AllDigits(whole) && AllDigits(frac)
        && u == Unsigned(whole, frac) && ParseUnsigned(u).value == NumeralValue(false, whole, frac);
      assert s == "-" + u;
      assert s == Numeral(true, whole, frac);
      assert ParseDecimal(s).value == NumeralValue(true, whole, frac);
    } else {
      ParseUnsignedSound(s);
      var whole, frac :| |whole| > 0 && AllDigits(whole) && AllDigits(frac)
        && s == Unsigned(whole, frac) && ParseUnsigned(s).value == NumeralValue(false, whole, frac);
      assert s == Numeral(false, whole, frac);
    }
  }

  /**
   * The parser is exact: it reads `v` from `s` if and only if `s` is a numeral of the
   * grammar denoting `v`, so anything else, such as "1.2.3", "-", "." or "5.", is NaN.
   */
  lemma ParseDecimalExact(s: string, v: real)
    ensures ParseDecimal(s) == Some(v) <==> Denotes(s, v)
  {
    if ParseDecimal(s) == Some(v) {
      ParseDecimalSound(s);
    }
    if Denotes(s, v) {
      var negative, whole, frac :| |whole| > 0 && AllDigits(whole) && AllDigits(frac)
        && s == Numeral(negative, whole, frac) && v == NumeralValue(negative, whole, frac);
      ParseNumeral(negative, whole, frac);
    }
  }

  /**
   * A cell normalises to `v` if and only if, once its commas and surrounding whitespace
   * are gone, it is a numeral denoting `v`; every other cell becomes NaN.
   */
  lemma NormaliseTextExact(s: string, v: real)
    ensures NormaliseText(s) == Some(v) <==> Denotes(Strip(RemoveCommas(s)), v)
  {
    ParseDecimalExact(Strip(RemoveCommas(s)), v);
  }

  /**
   * Strings made only of numeral characters that are not numerals of the grammar are
   * rejected and so become NaN; `to_numeric` itself would read "5." as 5.
   */
  lemma NonNumeralsAreNaN()
    ensures ParseDecimal("1.2.3") == None && ParseDecimal("-") == None
    ensures ParseDecimal(".") == None && ParseDecimal("5.") == None
  {
    assert FirstIndex("1.2.3", c => c == '.') == Some(1);
    assert !AllDigits("2.3") by { assert !IsDigit("2.3"[1]); }
    assert "-"[1..] == [];
    assert FirstIndex(".", c => c == '.') == Some(0);
    assert FirstIndex("5.", c => c == '.') == Some(1);
    assert "5."[2..] == [];
  }

  /** Round trip for integers: `str(n)` parses back to `n`. */
  lemma ParseNatText(n: nat)
    ensures ParseDecimal(NatText(n)) == Some(n as real)
  {
    ParseNumeral(false, NatText(n), "");
    assert Numeral(false, NatText(n), "") == NatText(n);
  }

  /** Whitespace around a cell, before or after its commas go, does not change the result. */
  lemma NormalisePadded(p: string, s: string, q: string)
    requires AllSpace(p) && AllSpace(q)
    ensures NormaliseText(p + s + q) == NormaliseText(s)
  {
    RemoveCommasAppend(p + s, q);
    RemoveCommasAppend(p, s);
    assert !IsSpace(',');
    assert ',' !in p && ',' !in q;
    StripPadded(p, RemoveCommas(s), q);
  }

  /** Thousands separators are ignored: deleting one comma anywhere changes nothing. */
  lemma NormaliseIgnoresComma(a: string, b: string)
    ensures NormaliseText(a + "," + b) == NormaliseText(a + b)
  {
    RemoveCommasAppend(a + ",", b);
    RemoveCommasAppend(a, ",");
    RemoveCommasAppend(a, b);
    assert RemoveCommas(",") == [];
    assert RemoveCommas(a) + [] == RemoveCommas(a);
  }

  /** A cell with no comma and no surrounding whitespace is parsed as it stands. */
  lemma NormaliseClean(s: string)
    requires ',' !in s
    requires s == [] || (!IsSpace(s[0]) && !IsSpace(s[|s| - 1]))
    ensures NormaliseText(s) == ParseDecimal(s)
  {
  }

  /**
   * A numeral written with a thousands separator, such as "1,234.50", normalises to the
   * value of the numeral without it: the digits on both sides of the comma are joined.
   */
  lemma NormaliseThousands(high: string, low: string, frac: string)
    requires |high| > 0 && AllDigits(high) && AllDigits(low) && |frac| > 0 && AllDigits(frac)
    ensures NormaliseText(high + "," + low + "." + frac) == Some(NumeralValue(false, high + low, frac))
  {
    var whole := high + low;
    var tail := low + "." + frac;
    var n := high + tail;
    assert high + "," + low + "." + frac == high + "," + tail;
    assert n == whole + "." + frac;
    assert AllDigits(whole);
    NumeralIs(whole, frac);
    NormaliseIgnoresComma(high, tail);
    NumeralClean(n);
    NormaliseClean(n);
  }

  lemma NumeralIs(whole: string, frac: string)
    requires |whole| > 0 && AllDigits(whole) && |frac| > 0 && AllDigits(frac)
    ensures ParseDecimal(whole + "." + frac) == Some(NumeralValue(false, whole, frac))
  {
    assert Numeral(false, whole, frac) == whole + "." + frac;
    ParseNumeral(false, whole, frac);
  }

  /** A string the parser accepts has no comma and no whitespace at either end. */
  lemma NumeralClean(n: string)
    requires ParseDecimal(n).Some?
    ensures ',' !in n && !IsSpace(n[0]) && !IsSpace(n[|n| - 1])
  {
    assert NumeralShaped(n);
  }
}
