/** The parts of Python's `decimal` module that the quote relies on, with a
    `Decimal` taken as the exact rational number it denotes:
    `quantize(Decimal("1"))` under ROUND_HALF_UP and under the default
    context's ROUND_HALF_EVEN, and the `Decimal(str)` constructor. */
module Decimal {
  import opened Wrappers
  import opened Text

  // ---------------------------------------------------------------- rounding to a whole unit

  /** `x.quantize(Decimal("1"), rounding=ROUND_HALF_UP)`: the nearest integer,
      an exact half going away from zero. */
  function RoundHalfUp(x: real): (r: int)
    ensures x - 0.5 <= r as real <= x + 0.5
    ensures r as real == x + 0.5 ==> x > 0.0
    ensures r as real == x - 0.5 ==> x < 0.0
  {
    var f := x.Floor;
    var d := x - f as real;
    if x >= 0.0 then (if d < 0.5 then f else f + 1)
    else (if d <= 0.5 then f else f + 1)
  }

  /** `x.quantize(Decimal("1"))` in the default context (ROUND_HALF_EVEN): the
      nearest integer, an exact half going to the even neighbour. */
  function RoundHalfEven(x: real): (r: int)
    ensures x - 0.5 <= r as real <= x + 0.5
    ensures r as real == x + 0.5 || r as real == x - 0.5 ==> r % 2 == 0
  {
    var f := x.Floor;
    var d := x - f as real;
    if d < 0.5 then f
    else if d > 0.5 then f + 1
    else if f % 2 == 0 then f
    else f + 1
  }

  /** Two integers within a half of `x` are equal unless both sit exactly half away. */
  lemma NearIntegers(x: real, m: int, n: int)
    requires x - 0.5 <= m as real <= x + 0.5
    requires x - 0.5 <= n as real <= x + 0.5
    ensures m == n || (m as real == x - 0.5 && n as real == x + 0.5) || (m as real == x + 0.5 && n as real == x - 0.5)
  {
    assert -1.0 <= (m - n) as real <= 1.0;
  }

  /** Half-up rounding is the only integer meeting its contract. */
  lemma RoundHalfUpUnique(x: real, n: int)
    requires x - 0.5 <= n as real <= x + 0.5
    requires n as real == x + 0.5 ==> x > 0.0
    requires n as real == x - 0.5 ==> x < 0.0
    ensures n == RoundHalfUp(x)
  {
    NearIntegers(x, n, RoundHalfUp(x));
  }

  /** Half-even rounding is the only integer meeting its contract. */
  lemma RoundHalfEvenUnique(x: real, n: int)
    requires x - 0.5 <= n as real <= x + 0.5
    requires n as real == x + 0.5 || n as real == x - 0.5 ==> n % 2 == 0
    ensures n == RoundHalfEven(x)
  {
    NearIntegers(x, n, RoundHalfEven(x));
  }

  /** The two modes differ only on exact halves. */
  lemma RoundingModesAgreeOffTies(x: real)
    requires x - x.Floor as real != 0.5
    ensures RoundHalfUp(x) == RoundHalfEven(x)
  {
    NearIntegers(x, RoundHalfUp(x), RoundHalfEven(x));
  }

  /** On a tie they part: 0.5 and 2.5 go up under half-up, down to the even
      neighbour under half-even. */
  lemma RoundingModesDifferOnTies()
    ensures RoundHalfUp(0.5) == 1 && RoundHalfEven(0.5) == 0
    ensures RoundHalfUp(2.5) == 3 && RoundHalfEven(2.5) == 2
    ensures RoundHalfUp(-2.5) == -3 && RoundHalfEven(-2.5) == -2
  {
    assert (0.5).Floor == 0;
    assert (2.5).Floor == 2;
    assert (-2.5).Floor == -3;
  }

  // ---------------------------------------------------------------- Decimal(str)

  predicate IsLiteralChar(c: char) {
    IsDigit(c) || c == '+' || c == '-' || c == '.' || c == 'e' || c == 'E'
  }

  /** Index of the first exponent marker `e` or `E`, or `|s|` when there is none. */
  function ExponentAt(s: string): (k: nat)
    ensures k <= |s|
    ensures forall i :: 0 <= i < k ==> s[i] != 'e' && s[i] != 'E'
    ensures k < |s| ==> s[k] == 'e' || s[k] == 'E'
    decreases |s|
  {
    if s == [] || s[0] == 'e' || s[0] == 'E' then 0 else 1 + ExponentAt(s[1..])
  }

  /** The coefficient of `digits ['.' [digits]] | '.' digits`, as the value of all
      its digits and the number of digits after the point. */
  function ParseMantissa(m: string): Option<(nat, nat)>
  {
    var ip := PrefixBefore(m, '.');
    if |ip| == |m| then
      if m != [] && AllDigits(m) then Some((DigitsValue(m), 0)) else None
    else
      var fp := m[|ip| + 1..];
      if AllDigits(ip) && AllDigits(fp) && (ip != [] || fp != [])
      then Some((DigitsValue(ip + fp), |fp|))
      else None
  }

  /** The exponent `[sign] digits` after the `e`. */
  function ParseExponent(x: string): Option<int>
  {
    var neg := x != [] && x[0] == '-';
    var ds := if x != [] && (x[0] == '+' || x[0] == '-') then x[1..] else x;
    if ds != [] && AllDigits(ds) then
      var v: int := DigitsValue(ds);
      Some(if neg then -v else v)
    else None
  }

  /** `Decimal(s)` for a finite numeric string: surrounding whitespace, an
      optional sign, a coefficient with an optional decimal point and an optional
      exponent; `None` where Python raises `InvalidOperation`. */
  function ParseDecimal(s: string): Option<real>
  {
    ParseSigned(Strip(s))
  }

  /** An optional `+` or `-` before an unsigned literal. */
  function ParseSigned(t: string): Option<real>
  {
    if t != [] && t[0] == '-' then Negate(ParseUnsigned(t[1..]))
    else if t != [] && t[0] == '+' then ParseUnsigned(t[1..])
    else ParseUnsigned(t)
  }

  function Negate(o: Option<real>): Option<real> {
    match o
    case None => None
    case Some(v) => Some(-v)
  }

  /** A coefficient and an optional exponent: the coefficient's digits scaled by
      ten to the exponent less the number of fraction digits. */
  function ParseUnsigned(body: string): Option<real>
  {
    var e := ExponentAt(body);
    if e == |body| then Combine(ParseMantissa(body), Some(0))
    else Combine(ParseMantissa(body[..e]), ParseExponent(body[e + 1..]))
  }

  /** Both parts must be well formed. */
  function Combine(mant: Option<(nat, nat)>, exp: Option<int>): Option<real> {
    if mant.None? || exp.None? then None
    else Some(Scaled(mant.value.0 as real, exp.value - mant.value.1))
  }

  /** `c * 10 ** k` as an exact rational, for any integer `k`, one factor of ten at a time. */
  function Scaled(c: real, k: int): real
    decreases if k >= 0 then k else -k
  {
    if k == 0 then c
    else if k > 0 then 10.0 * Scaled(c, k - 1)
    else Scaled(c, k + 1) / 10.0
  }

  /** The text of a plain decimal literal: an optional minus, integer digits, a point, fraction digits. */
  function PointLiteral(negative: bool, ip: string, fp: string): string {
    (if negative then "-" else "") + ip + "." + fp
  }

  /** The value of `ip.fp` written in digits. */
  function PointValue(ip: string, fp: string): real
    requires AllDigits(ip) && AllDigits(fp)
  {
    Scaled(DigitsValue(ip + fp) as real, 0 - |fp|)
  }

  /** The value of `ip.fp` is its digits over ten to the number of fraction digits. */
  lemma PointValueQuotient(ip: string, fp: string)
    requires AllDigits(ip) && AllDigits(fp)
    ensures PointValue(ip, fp) == DigitsValue(ip + fp) as real / Pow10(|fp|) as real
  {
    ScaleDown(DigitsValue(ip + fp), |fp|);
  }

  /** A literal with a point parses to the exact value of its digits. */
  lemma ParsePointLiteral(negative: bool, ip: string, fp: string)
    requires AllDigits(ip) && AllDigits(fp) && (ip != [] || fp != [])
    ensures ParseDecimal(PointLiteral(negative, ip, fp))
         == Some(if negative then -PointValue(ip, fp) else PointValue(ip, fp))
  {
    if negative {
      ParseNegativePoint(ip, fp);
    } else {
      ParsePositivePoint(ip, fp);
    }
  }

  lemma ParseNegativePoint(ip: string, fp: string)
    requires AllDigits(ip) && AllDigits(fp) && (ip != [] || fp != [])
    ensures ParseDecimal(PointLiteral(true, ip, fp)) == Some(-PointValue(ip, fp))
  {
    var m := ip + "." + fp;
    PointBodyEnds(ip, fp);
    assert PointLiteral(true, ip, fp) == "-" + m;
    ParseNegativeBody(m);
    NegatedPointMantissa(ip, fp);
  }

  lemma NegatedPointMantissa(ip: string, fp: string)
    requires AllDigits(ip) && AllDigits(fp) && (ip != [] || fp != [])
    ensures Negate(ParseUnsigned(ip + "." + fp)) == Some(-PointValue(ip, fp))
  {
    PointMantissa(ip, fp);
  }

  lemma ParsePositivePoint(ip: string, fp: string)
    requires AllDigits(ip) && AllDigits(fp) && (ip != [] || fp != [])
    ensures ParseDecimal(PointLiteral(false, ip, fp)) == Some(PointValue(ip, fp))
  {
    var m := ip + "." + fp;
    PointBodyEnds(ip, fp);
    assert PointLiteral(false, ip, fp) == m;
    ParsePositiveBody(m);
    PointMantissa(ip, fp);
  }

  lemma PointBodyEnds(ip: string, fp: string)
    requires AllDigits(ip) && AllDigits(fp)
    ensures var m := ip + "." + fp;
      m != [] && (IsDigit(m[0]) || m[0] == '.') && (IsDigit(m[|m| - 1]) || m[|m| - 1] == '.')
  {
    var m := ip + "." + fp;
    assert m[|ip|] == '.';
    assert m[|m| - 1] == if fp != [] then fp[|fp| - 1] else '.';
    assert m[0] == if ip != [] then ip[0] else '.';
  }

  /** A literal body that starts and ends with a digit or a point, read with a minus sign. */
  lemma ParseNegativeBody(m: string)
    requires m != [] && (IsDigit(m[0]) || m[0] == '.') && (IsDigit(m[|m| - 1]) || m[|m| - 1] == '.')
    ensures ParseDecimal("-" + m) == Negate(ParseUnsigned(m))
  {
    StripMinusBody(m);
    SignedMinus(m);
  }

  lemma StripMinusBody(m: string)
    requires m != [] && (IsDigit(m[|m| - 1]) || m[|m| - 1] == '.')
    ensures Strip("-" + m) == "-" + m
  {
    var s := "-" + m;
    assert s[0] == '-' && s[|s| - 1] == m[|m| - 1];
    StripUntouched(s);
  }

  lemma SignedMinus(m: string)
    ensures ParseSigned("-" + m) == Negate(ParseUnsigned(m))
  {
    var s := "-" + m;
    assert s[1..] == m;
  }

  /** A literal body that starts and ends with a digit or a point, read without a sign. */
  lemma ParsePositiveBody(m: string)
    requires m != [] && (IsDigit(m[0]) || m[0] == '.') && (IsDigit(m[|m| - 1]) || m[|m| - 1] == '.')
    ensures ParseDecimal(m) == ParseUnsigned(m)
  {
    StripBody(m);
    SignedBody(m);
  }

  lemma StripBody(m: string)
    requires m != [] && (IsDigit(m[0]) || m[0] == '.') && (IsDigit(m[|m| - 1]) || m[|m| - 1] == '.')
    ensures Strip(m) == m
  {
    StripUntouched(m);
  }

  lemma SignedBody(m: string)
    requires m == [] || (m[0] != '-' && m[0] != '+')
    ensures ParseSigned(m) == ParseUnsigned(m)
  {
  }

  lemma PointMantissa(ip: string, fp: string)
    requires AllDigits(ip) && AllDigits(fp) && (ip != [] || fp != [])
    ensures ParseUnsigned(ip + "." + fp) == Some(PointValue(ip, fp))
  {
    var m := ip + "." + fp;
    assert forall i :: 0 <= i < |m| ==> IsDigit(m[i]) || m[i] == '.';
    NoExponentIn(m);
    PointMantissaParts(ip, fp);
    UnsignedWithoutExponent(m);
    CombineWithoutExponent(DigitsValue(ip + fp), |fp|);
  }

  /** A literal with no exponent is read from its coefficient alone. */
  lemma UnsignedWithoutExponent(m: string)
    requires ExponentAt(m) == |m|
    ensures ParseUnsigned(m) == Combine(ParseMantissa(m), Some(0))
  {
  }

  /** A coefficient with no exponent is its digits scaled down by its fraction length. */
  lemma CombineWithoutExponent(d: nat, k: nat)
    ensures Combine(Some((d, k)), Some(0)) == Some(Scaled(d as real, 0 - k))
  {
  }

  /** Scaling by a negative power is dividing by the positive one. */
  lemma {:induction false} ScaleDown(d: nat, k: nat)
    ensures Scaled(d as real, 0 - k) == d as real / Pow10(k) as real
  {
    if k > 0 {
      ScaleDown(d, k - 1);
      DivideTwice(d as real, Pow10(k - 1) as real);
    }
  }

  lemma DivideTwice(x: real, p: real)
    requires p > 0.0
    ensures x / p / 10.0 == x / (10.0 * p)
  {
  }

  lemma PointMantissaParts(ip: string, fp: string)
    requires AllDigits(ip) && AllDigits(fp) && (ip != [] || fp != [])
    ensures AllDigits(ip + fp)
    ensures ParseMantissa(ip + "." + fp) == Some((DigitsValue(ip + fp), |fp|))
  {
    var m := ip + "." + fp;
    assert m[|ip|] == '.';
    assert m[..|ip|] == ip;
    assert PrefixBefore(m, '.') == ip;
    assert m[|ip| + 1..] == fp;
  }

  lemma NoExponentIn(m: string)
    requires forall i :: 0 <= i < |m| ==> IsDigit(m[i]) || m[i] == '.'
    ensures ExponentAt(m) == |m|
  {
    if ExponentAt(m) < |m| {
      assert m[ExponentAt(m)] == 'e' || m[ExponentAt(m)] == 'E';
    }
  }

  /** A plain run of digits parses to its value. */
  lemma DigitsMantissa(ds: string)
    requires ds != [] && AllDigits(ds)
    ensures ParseUnsigned(ds) == Some(DigitsValue(ds) as real)
  {
    NoExponentIn(ds);
    UnsignedWithoutExponent(ds);
    assert ParseMantissa(ds) == Some((DigitsValue(ds), 0));
    CombineWithoutExponent(DigitsValue(ds), 0);
  }

  /** `Decimal(str(i)) == i` for every integer. */
  lemma ParseIntToString(i: int)
    ensures ParseDecimal(IntToString(i)) == Some(i as real)
  {
    if i < 0 {
      ParseNegative(i);
    } else {
      ParseNatural(i);
    }
  }

  lemma ParseNatural(i: int)
    requires i >= 0
    ensures ParseDecimal(IntToString(i)) == Some(i as real)
  {
    var ds := NatToString(i);
    assert IntToString(i) == ds;
    ParsePositiveBody(ds);
    DigitsMantissa(ds);
    NatToStringValue(i);
  }

  lemma ParseNegative(i: int)
    requires i < 0
    ensures ParseDecimal(IntToString(i)) == Some(i as real)
  {
    var ds := NatToString(-i);
    assert IntToString(i) == "-" + ds;
    ParseNegativeBody(ds);
    NegatedDigits(i);
  }

  lemma NegatedDigits(i: int)
    requires i < 0
    ensures Negate(ParseUnsigned(NatToString(-i))) == Some(i as real)
  {
    DigitsMantissa(NatToString(-i));
    NatToStringValue(-i);
  }

  /** Only the characters of a numeric literal and whitespace can make up a
      string that `Decimal` accepts. */
  lemma ParsedCharacters(s: string)
    requires ParseDecimal(s).Some?
    ensures forall i :: 0 <= i < |s| ==> IsSpace(s[i]) || IsLiteralChar(s[i])
  {
    SignedCharacters(Strip(s));
    CharactersAround(s, StripStart(s), Strip(s));
  }

  /** A stretch of literal characters with only whitespace around it. */
  lemma CharactersAround(s: string, a: nat, t: string)
    requires a + |t| <= |s| && t == s[a..a + |t|]
    requires forall i :: 0 <= i < a ==> IsSpace(s[i])
    requires forall i :: a + |t| <= i < |s| ==> IsSpace(s[i])
    requires forall j :: 0 <= j < |t| ==> IsLiteralChar(t[j])
    ensures forall i :: 0 <= i < |s| ==> IsSpace(s[i]) || IsLiteralChar(s[i])
  {
    forall i | 0 <= i < |s| ensures IsSpace(s[i]) || IsLiteralChar(s[i]) {
      if a <= i < a + |t| {
        assert s[i] == t[i - a];
      }
    }
  }

  lemma SignedCharacters(t: string)
    requires ParseSigned(t).Some?
    ensures forall j :: 0 <= j < |t| ==> IsLiteralChar(t[j])
  {
    var off := if t != [] && (t[0] == '+' || t[0] == '-') then 1 else 0;
    var body := t[off..];
    UnsignedCharacters(body);
    forall j | 0 <= j < |t| ensures IsLiteralChar(t[j]) {
      if j >= off {
        assert t[j] == body[j - off];
      }
    }
  }

  lemma UnsignedCharacters(body: string)
    requires ParseUnsigned(body).Some?
    ensures forall j :: 0 <= j < |body| ==> IsLiteralChar(body[j])
  {
    var e := ExponentAt(body);
    if e == |body| {
      MantissaCharacters(body);
      return;
    }
    MantissaCharacters(body[..e]);
    ExponentCharacters(body[e + 1..]);
    forall j | 0 <= j < |body| ensures IsLiteralChar(body[j]) {
      if j < e {
        assert body[j] == body[..e][j];
      } else if j > e {
        assert body[j] == body[e + 1..][j - e - 1];
      }
    }
  }

  lemma MantissaCharacters(m: string)
    requires ParseMantissa(m).Some?
    ensures forall i :: 0 <= i < |m| ==> IsDigit(m[i]) || m[i] == '.'
  {
    var ip := PrefixBefore(m, '.');
    if |ip| < |m| {
      var fp := m[|ip| + 1..];
      forall i | 0 <= i < |m| ensures IsDigit(m[i]) || m[i] == '.' {
        if i < |ip| {
          assert m[i] == ip[i];
        } else if i > |ip| {
          assert m[i] == fp[i - |ip| - 1];
        }
      }
    }
  }

  lemma ExponentCharacters(x: string)
    requires ParseExponent(x).Some?
    ensures forall i :: 0 <= i < |x| ==> IsDigit(x[i]) || x[i] == '+' || x[i] == '-'
  {
    if x != [] && (x[0] == '+' || x[0] == '-') {
      forall i | 1 <= i < |x| ensures IsDigit(x[i]) {
        assert x[i] == x[1..][i - 1];
      }
    }
  }
}
