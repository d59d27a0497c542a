/** Decimal numerals: Python's `int()` and `float()` / pandas' `to_numeric` on text, the decimal
    rendering of naturals, and the integer square root. Numbers are exact (`int`, `real`). */
module Numbers {
  import opened Base
  import opened Text

  predicate AllDigits(s: string) {
    forall i :: 0 <= i < |s| ==> IsDigit(s[i])
  }

  function DigitValue(c: char): (d: nat)
    requires IsDigit(c)
    ensures d < 10
  {
    c as int - '0' as int
  }

  function DigitChar(d: nat): (c: char)
    requires d < 10
    ensures IsDigit(c) && DigitValue(c) == d
  {
    ('0' as int + d) as char
  }

  /** The value of a string of decimal digits (the empty string counts 0). */
  function DigitsValue(s: string): (n: nat)
    requires AllDigits(s)
  {
    if s == [] then 0 else DigitsValue(s[..|s| - 1]) * 10 + DigitValue(s[|s| - 1])
  }

  function Pow10(k: nat): (p: nat)
    ensures p >= 1
  {
    if k == 0 then 1 else 10 * Pow10(k - 1)
  }

  lemma {:induction false} DigitsValueBound(s: string)
    requires AllDigits(s)
    ensures DigitsValue(s) < Pow10(|s|)
  {
    if s != [] {
      DigitsValueBound(s[..|s| - 1]);
    }
  }

  lemma {:induction false} DigitsValueAppend(a: string, b: string)
    requires AllDigits(a) && AllDigits(b)
    ensures AllDigits(a + b)
    ensures DigitsValue(a + b) == DigitsValue(a) * Pow10(|b|) + DigitsValue(b)
    decreases |b|
  {
    if b == [] {
      assert a + b == a;
    } else {
      var b' := b[..|b| - 1];
      assert (a + b)[..|a + b| - 1] == a + b';
      assert (a + b)[|a + b| - 1] == b[|b| - 1];
      DigitsValueAppend(a, b');
      var va, vb, p, d := DigitsValue(a), DigitsValue(b'), Pow10(|b'|), DigitValue(b[|b| - 1]);
      assert DigitsValue(a + b) == DigitsValue(a + b') * 10 + d;
      assert DigitsValue(b) == vb * 10 + d;
      assert Pow10(|b|) == 10 * p;
      ShiftDigit(va, vb, p, d);
    }
  }

  lemma ShiftDigit(va: int, vb: int, p: int, d: int)
    ensures (va * p + vb) * 10 + d == va * (10 * p) + (vb * 10 + d)
  {
  }

  /** Leading zeros do not change the value (`str.zfill` on a digit string). */
  lemma {:induction false} DigitsValueLeadingZeros(k: nat, s: string)
    requires AllDigits(s)
    ensures AllDigits(Repeat('0', k) + s)
    ensures DigitsValue(Repeat('0', k) + s) == DigitsValue(s)
  {
    ZerosValue(k);
    DigitsValueAppend(Repeat('0', k), s);
  }

  lemma {:induction false} ZerosValue(k: nat)
    ensures AllDigits(Repeat('0', k)) && DigitsValue(Repeat('0', k)) == 0
  {
    if k > 0 {
      assert Repeat('0', k)[..k - 1] == Repeat('0', k - 1);
      ZerosValue(k - 1);
    }
  }

  /** The decimal rendering of a natural number, without leading zeros (`str(n)`). */
  function NatToString(n: nat): (r: string)
    ensures |r| > 0 && AllDigits(r)
    ensures |r| > 1 ==> r[0] != '0'
    ensures DigitsValue(r) == n
  {
    if n < 10 then [DigitChar(n)]
    else
      var r := NatToString(n / 10) + [DigitChar(n % 10)];
      assert r[..|r| - 1] == NatToString(n / 10);
      r
  }

  /** Below `10^k`, with `k >= 1`, the rendering has at most `k` digits. */
  lemma {:induction false} NatToStringLength(n: nat, k: nat)
    requires 1 <= k && n < Pow10(k)
    ensures |NatToString(n)| <= k
  {
    if n >= 10 {
      assert Pow10(1) == 10;
      NatToStringLength(n / 10, k - 1);
    }
  }

  /** Two digit strings of the same length with the same value are the same string. */
  lemma {:induction false} DigitsValueInjective(a: string, b: string)
    requires AllDigits(a) && AllDigits(b) && |a| == |b|
    requires DigitsValue(a) == DigitsValue(b)
    ensures a == b
  {
    if a != [] {
      var a', b' := a[..|a| - 1], b[..|b| - 1];
      assert DigitValue(a[|a| - 1]) == DigitsValue(a) % 10;
      assert DigitValue(b[|b| - 1]) == DigitsValue(b) % 10;
      assert DigitsValue(a') == DigitsValue(b');
      DigitsValueInjective(a', b');
      assert a[|a| - 1] == b[|b| - 1] by {
        DigitCharValue(a[|a| - 1]);
        DigitCharValue(b[|b| - 1]);
      }
      assert a == a' + [a[|a| - 1]] && b == b' + [b[|b| - 1]];
    }
  }

  lemma DigitCharValue(c: char)
    requires IsDigit(c)
    ensures DigitChar(DigitValue(c)) == c
  {
  }

  /** A string of digits is the rendering of a natural; the rendering without leading zeros is
      unique. */
  lemma {:induction false} NatToStringOfDigits(s: string)
    requires |s| > 0 && AllDigits(s) && (|s| > 1 ==> s[0] != '0')
    ensures NatToString(DigitsValue(s)) == s
  {
    if |s| > 1 {
      var p, c := s[..|s| - 1], s[|s| - 1];
      assert p[0] == s[0];
      NatToStringOfDigits(p);
      NonZeroLeadValue(p);
      var v, d := DigitsValue(p), DigitValue(c);
      assert DigitsValue(s) == v * 10 + d;
      DivModDigit(v, d);
      assert DigitChar(d) == c;
      assert s == p + [c];
    }
  }

  lemma DivModDigit(v: nat, d: nat)
    requires d < 10
    ensures (v * 10 + d) / 10 == v && (v * 10 + d) % 10 == d
  {
  }

  lemma {:induction false} NonZeroLeadValue(s: string)
    requires |s| > 0 && AllDigits(s) && s[0] != '0'
    ensures DigitsValue(s) >= 1
  {
    if |s| > 1 {
      assert s[..|s| - 1][0] == s[0];
      NonZeroLeadValue(s[..|s| - 1]);
    }
  }

  /** Python `int(s)`: surrounding whitespace, an optional sign and at least one digit.
      `None` stands for the `ValueError` raised on anything else. */
  function ParseInt(s: string): (r: Option<int>)
    ensures r.Some? ==> Strip(s) != []
  {
    var t := Strip(s);
    if t == [] then None
    else if t[0] == '-' || t[0] == '+' then
      var d := t[1..];
      if d != [] && AllDigits(d) then
        var v: int := DigitsValue(d);
        Some(if t[0] == '-' then -v else v)
      else None
    else if AllDigits(t) then Some(DigitsValue(t))
    else None
  }

  /** A non-empty run of digits, leading zeros allowed, is read as its value. */
  lemma DigitsParseInt(s: string)
    requires |s| > 0 && AllDigits(s)
    ensures ParseInt(s) == Some(DigitsValue(s))
  {
    StripNoSpace(s);
  }

  lemma ParseIntOfNat(n: nat)
    ensures ParseInt(NatToString(n)) == Some(n)
  {
    DigitsParseInt(NatToString(n));
  }

  /** `str(n)` for an integer: the digits of its magnitude, after a '-' when negative. */
  function IntToString(n: int): (r: string)
    ensures ParseInt(r) == Some(n)
    ensures forall i :: 0 <= i < |r| ==> IsDigit(r[i]) || r[i] == '-'
  {
    if n < 0 then
      var d := NatToString(-n);
      var r := "-" + d;
      assert r[1..] == d;
      StripNoSpace(r);
      r
    else
      ParseIntOfNat(n);
      NatToString(n)
  }

  /** The unsigned body of a decimal numeral: digits, optionally followed by '.' and more
      digits, with at least one digit in all ("12", "12.", "12.5", ".5"). */
  function ParseUnsignedDecimal(t: string): (r: Option<real>)
    ensures r.Some? ==> r.value >= 0.0
    ensures r.Some? ==> forall i :: 0 <= i < |t| ==> IsDigit(t[i]) || t[i] == '.'
  {
    var ip := FirstSegment(t, '.');
    if |ip| == |t| then
      if t != [] && AllDigits(t) then Some(DigitsValue(t) as real) else None
    else
      var fp := t[|ip| + 1..];
      if AllDigits(ip) && AllDigits(fp) && |ip| + |fp| > 0 then
        Some(DecimalOf(ip, fp))
      else None
  }

  /** The value of the numeral `ip.fp`. */
  function DecimalOf(ip: string, fp: string): real
    requires AllDigits(ip) && AllDigits(fp)
  {
    DigitsValue(ip) as real + DigitsValue(fp) as real / Pow10(|fp|) as real
  }

  /** The plain decimal numerals that Python `float(s)` and pandas `to_numeric` read:
      surrounding whitespace, an optional sign and an unsigned decimal. `None` stands for the
      `ValueError` (or, with `errors='coerce'`, the NaN) produced for text outside this set.
      Exponents ("1e3"), "inf", "nan" and '_' digit separators, which Python also reads, are
      not in it. */
  function ParseDecimal(s: string): (r: Option<real>)
  {
    var t := Strip(s);
    if t != [] && (t[0] == '-' || t[0] == '+') then
      match ParseUnsignedDecimal(t[1..])
      case Some(v) => Some(if t[0] == '-' then -v else v)
      case None => None
    else ParseUnsignedDecimal(t)
  }

  /** The characters a numeral may contain: digits, the point, a sign and whitespace. */
  predicate NumeralChar(c: char) {
    IsDigit(c) || c == '.' || c == '+' || c == '-' || IsSpace(c)
  }

  /** A value that parses is made of numeral characters only, so text with a letter is NaN. */
  lemma ParsedChars(s: string)
    requires ParseDecimal(s).Some?
    ensures forall i :: 0 <= i < |s| ==> NumeralChar(s[i])
  {
    var t := Strip(s);
    var k := LeadingSpaces(s);
    forall i | 0 <= i < |s| ensures NumeralChar(s[i]) {
      if k <= i < k + |t| {
        assert s[i] == t[i - k];
        if t[0] == '-' || t[0] == '+' {
          if i > k {
            assert s[i] == t[1..][i - k - 1];
          }
        }
      }
    }
  }

  /** Text with a character no numeral has does not parse. */
  lemma NonNumeralNotParsed(s: string, k: nat)
    requires k < |s| && !NumeralChar(s[k])
    ensures ParseDecimal(s) == None
  {
    if ParseDecimal(s).Some? {
      ParsedChars(s);
    }
  }

  /** Digits, a point and digits parse to the value they denote. */
  lemma DecimalValue(a: string, b: string)
    requires AllDigits(a) && AllDigits(b) && |a| > 0
    ensures ParseDecimal(a + "." + b) == Some(DecimalOf(a, b))
  {
    var s := a + "." + b;
    UnsignedNumeralParse(s);
    UnsignedDecimalValue(a, b);
  }

  lemma UnsignedDecimalValue(a: string, b: string)
    requires AllDigits(a) && AllDigits(b) && |a| > 0
    ensures ParseUnsignedDecimal(a + "." + b) == Some(DecimalOf(a, b))
  {
    var s := a + "." + b;
    FirstSegmentAppend(a, '.', b);
    assert FirstSegment(s, '.') == a;
    assert s[|a| + 1..] == b;
  }

  /** A numeral without whitespace or sign is parsed by its unsigned body. */
  lemma UnsignedNumeralParse(s: string)
    requires |s| > 0 && IsDigit(s[0])
    requires forall i :: 0 <= i < |s| ==> IsDigit(s[i]) || s[i] == '.'
    ensures ParseDecimal(s) == ParseUnsignedDecimal(s)
  {
    NumeralHasNoSpace(s);
    StripNoSpace(s);
  }

  lemma NumeralHasNoSpace(s: string)
    requires forall i :: 0 <= i < |s| ==> IsDigit(s[i]) || s[i] == '.'
    ensures forall i :: 0 <= i < |s| ==> !IsSpace(s[i])
  {
  }

  /** Digits alone parse to their value. */
  lemma IntegerDecimalValue(a: string)
    requires AllDigits(a) && |a| > 0
    ensures ParseDecimal(a) == Some(DigitsValue(a) as real)
  {
    UnsignedNumeralParse(a);
    assert '.' !in a;
    FirstSegmentAbsent(a, '.');
  }

  /** Integer square root, `int(n ** 0.5)` on an exact square root. */
  function ISqrt(n: nat): (r: nat)
    ensures r * r <= n < (r + 1) * (r + 1)
  {
    ISqrtFrom(n, 0)
  }

  function ISqrtFrom(n: nat, r: nat): (q: nat)
    requires r * r <= n
    ensures q * q <= n < (q + 1) * (q + 1)
    decreases n - r
  {
    if (r + 1) * (r + 1) > n then r
    else ISqrtFrom(n, r + 1)
  }

  /** The integer square root of a square is its side. */
  lemma ISqrtOfSquare(k: nat)
    ensures ISqrt(k * k) == k
  {
    var r := ISqrt(k * k);
    SquareLe(r, k);
    SquareLe(r + 1, k);
  }

  /** Squares of naturals are ordered as the naturals are. */
  lemma SquareLe(a: nat, b: nat)
    ensures a * a <= b * b <==> a <= b
  {
    if a <= b {
      MulMono(a, b);
    } else {
      MulMono(b + 1, a);
    }
  }

  lemma MulMono(a: nat, b: nat)
    requires a <= b
    ensures a * a <= b * b
  {
    assert a * a <= a * b <= b * b;
  }
}
