/** The money helpers of the quote: a quote line and its rounded total, the
    Chilean-peso rendering `money_clp`, and the total parser `to_decimal`. */
module Utils {
  import opened Wrappers
  import opened Text
  import opened Decimal

  // ---------------------------------------------------------------- QuoteItem

  /** One line of a quote: what is sold, how many, and the price of one. */
  datatype QuoteItem = QuoteItem(description: string, qty: real, unitPrice: real)
  {
    /** The exact product `qty * unit_price`, before rounding. */
    function Amount(): real {
      qty * unitPrice
    }

    /** The amount rounded to a whole peso, an exact half going away from zero. */
    function LineTotal(): (r: int)
      ensures Amount() - 0.5 <= r as real <= Amount() + 0.5
      ensures r as real == Amount() + 0.5 ==> Amount() > 0.0
      ensures r as real == Amount() - 0.5 ==> Amount() < 0.0
    {
      RoundHalfUp(Amount())
    }
  }

  /** The line total is the one integer within half a peso of the product that
      breaks ties away from zero. */
  lemma LineTotalUnique(it: QuoteItem, n: int)
    requires it.Amount() - 0.5 <= n as real <= it.Amount() + 0.5
    requires n as real == it.Amount() + 0.5 ==> it.Amount() > 0.0
    requires n as real == it.Amount() - 0.5 ==> it.Amount() < 0.0
    ensures n == it.LineTotal()
  {
    RoundHalfUpUnique(it.Amount(), n);
  }

  /** A product that is already a whole number is kept exactly. */
  lemma LineTotalExact(it: QuoteItem, k: int)
    requires it.Amount() == k as real
    ensures it.LineTotal() == k
  {
    LineTotalUnique(it, k);
  }

  /** Non-negative quantity and price give a non-negative line total. */
  lemma LineTotalNonNegative(it: QuoteItem)
    requires it.qty >= 0.0 && it.unitPrice >= 0.0
    ensures it.LineTotal() >= 0
  {
    assert it.qty * it.unitPrice >= 0.0;
  }

  /** 3 x 333.33 = 999.99 is billed as 1000, and 1 x 2.5 as 3 (half-up, not half-even). */
  lemma LineTotalExamples()
    ensures QuoteItem("Hora de soporte", 3.0, 333.33).LineTotal() == 1000
    ensures QuoteItem("Medio servicio", 1.0, 2.5).LineTotal() == 3
  {
    LineTotalUnique(QuoteItem("Hora de soporte", 3.0, 333.33), 1000);
    LineTotalUnique(QuoteItem("Medio servicio", 1.0, 2.5), 3);
  }

  // ---------------------------------------------------------------- money_clp

  /** `f"{n:,}".replace(",", ".")` for `n >= 0`: the digits of `n` in groups of
      three from the right, separated by dots. */
  function GroupDigits(n: nat): string
    decreases n
  {
    if n < 1000 then NatToString(n)
    else GroupDigits(n / 1000) + "." + ZeroPad(NatToString(n % 1000), 3)
  }

  /** `f"{v:,}".replace(",", ".")` for any integer: a minus sign before the groups. */
  function GroupedInt(v: int): string {
    if v < 0 then "-" + GroupDigits(-v) else GroupDigits(v)
  }

  /** `money_clp(value)`: round half-up to whole pesos and print the groups behind `"$ "`. */
  function MoneyClp(value: real): string {
    "$ " + GroupedInt(RoundHalfUp(value))
  }

  /** The text without its dots. */
  function RemoveDots(s: string): (r: string)
    ensures '.' !in r
  {
    if s == [] then [] else (if s[0] == '.' then [] else [s[0]]) + RemoveDots(s[1..])
  }

  lemma {:induction false} RemoveDotsAppend(a: string, b: string)
    ensures RemoveDots(a + b) == RemoveDots(a) + RemoveDots(b)
    decreases |a|
  {
    if a != [] {
      assert (a + b)[1..] == a[1..] + b;
      RemoveDotsAppend(a[1..], b);
    } else {
      assert a + b == b;
    }
  }

  lemma {:induction false} RemoveDotsOfDigits(s: string)
    requires AllDigits(s)
    ensures RemoveDots(s) == s
    decreases |s|
  {
    if s != [] {
      RemoveDotsOfDigits(s[1..]);
      assert s == [s[0]] + s[1..];
    }
  }

  /** The last group of a number of at least 1000: exactly three digits. */
  lemma LowGroup(n: nat)
    ensures var p := ZeroPad(NatToString(n % 1000), 3);
      |p| == 3 && AllDigits(p) && DigitsValue(p) == n % 1000
  {
    NatToStringLength(n % 1000, 3);
    ZeroPadValue(NatToString(n % 1000), 3);
    NatToStringValue(n % 1000);
  }

  /** Digits and dots, a digit first, and a dot exactly at every fourth place
      counted from the right: digit groups of three read from the right. */
  predicate Grouped(s: string) {
    s != [] && IsDigit(s[0])
    && (forall i :: 0 <= i < |s| ==> IsDigit(s[i]) || s[i] == '.')
    && (forall i :: 0 <= i < |s| ==> (s[i] == '.' <==> (|s| - i) % 4 == 0))
  }

  /** The thousands-separated text of a number is grouped in threes. */
  lemma {:induction false} GroupDigitsLayout(n: nat)
    ensures Grouped(GroupDigits(n))
    decreases n
  {
    if n < 1000 {
      var s := NatToString(n);
      NatToStringLength(n, 3);
      forall i | 0 <= i < |s| ensures IsDigit(s[i]) && 1 <= |s| - i <= 3 { }
    } else {
      GroupDigitsLayout(n / 1000);
      LowGroup(n);
      GroupedAppend(GroupDigits(n / 1000), ZeroPad(NatToString(n % 1000), 3));
    }
  }

  /** One more dot and group of three digits keeps the text grouped. */
  lemma GroupedAppend(g: string, p: string)
    requires Grouped(g) && |p| == 3 && AllDigits(p)
    ensures Grouped(g + "." + p)
  {
    var s := g + "." + p;
    forall i | 0 <= i < |s|
      ensures (IsDigit(s[i]) || s[i] == '.') && (s[i] == '.' <==> (|s| - i) % 4 == 0)
    {
      if i < |g| {
        assert s[i] == g[i] && |s| - i == (|g| - i) + 4;
      } else if i == |g| {
        assert s[i] == '.' && |s| - i == 4;
      } else {
        assert s[i] == p[i - |g| - 1] && 1 <= |s| - i <= 3;
      }
    }
  }

  /** Taking the dots out of the groups gives back `str(n)`. */
  lemma {:induction false} GroupDigitsDigits(n: nat)
    ensures RemoveDots(GroupDigits(n)) == NatToString(n)
    decreases n
  {
    if n < 1000 {
      RemoveDotsOfDigits(NatToString(n));
    } else {
      GroupDigitsDigits(n / 1000);
      LowGroup(n);
      RemoveDotsGroup(GroupDigits(n / 1000), ZeroPad(NatToString(n % 1000), 3));
      HighAndLowDigits(n);
    }
  }

  lemma RemoveDotsGroup(g: string, p: string)
    requires AllDigits(p)
    ensures RemoveDots(g + "." + p) == RemoveDots(g) + p
  {
    RemoveDotsAppend(g + ".", p);
    RemoveDotsAppend(g, ".");
    RemoveDotsOfDigits(p);
  }

  /** `str(n)` is `str(n // 1000)` followed by the last three digits, zero padded. */
  lemma HighAndLowDigits(n: nat)
    requires n >= 1000
    ensures NatToString(n / 1000) + ZeroPad(NatToString(n % 1000), 3) == NatToString(n)
  {
    var hi, p := NatToString(n / 1000), ZeroPad(NatToString(n % 1000), 3);
    LowGroup(n);
    DigitsValueAppend(hi, p);
    NatToStringValue(n / 1000);
    assert Pow10(3) == 1000;
    assert (hi + p)[0] == hi[0];
    CanonicalDigits(hi + p, n);
  }

  /** The text after `"$ "` is `str` of the rounded value once its dots are taken out. */
  lemma MoneyClpDigits(value: real)
    ensures |MoneyClp(value)| > 2 && MoneyClp(value)[..2] == "$ "
    ensures RemoveDots(MoneyClp(value)[2..]) == IntToString(RoundHalfUp(value))
  {
    var r := RoundHalfUp(value);
    var s := MoneyClp(value);
    assert s[2..] == GroupedInt(r);
    GroupDigitsLayout(if r < 0 then -r else r);
    if r < 0 {
      GroupDigitsDigits(-r);
      RemoveDotsAppend("-", GroupDigits(-r));
    } else {
      GroupDigitsDigits(r);
    }
  }

  /** Removing `"$ "` and the dots and parsing the rest gives the rounded value back. */
  lemma MoneyClpRoundTrip(value: real)
    ensures |MoneyClp(value)| > 2 && MoneyClp(value)[..2] == "$ "
    ensures ToDecimal(RemoveDots(MoneyClp(value)[2..])) == RoundHalfUp(value) as real
  {
    MoneyClpDigits(value);
    ParseIntToString(RoundHalfUp(value));
  }

  /** After `"$ "` comes a minus exactly for a negative amount, then digit groups
      (a digit first, so a non-negative amount has no minus). */
  lemma MoneyClpLayout(value: real)
    ensures var s := MoneyClp(value);
      RoundHalfUp(value) < 0 ==> |s| > 3 && s[..3] == "$ -" && Grouped(s[3..])
    ensures var s := MoneyClp(value);
      RoundHalfUp(value) >= 0 ==> |s| > 2 && s[..2] == "$ " && Grouped(s[2..])
  {
    var r := RoundHalfUp(value);
    var s := MoneyClp(value);
    if r < 0 {
      GroupDigitsLayout(-r);
      assert s == "$ -" + GroupDigits(-r);
      assert s[3..] == GroupDigits(-r);
    } else {
      GroupDigitsLayout(r);
      assert s == "$ " + GroupDigits(r);
      assert s[2..] == GroupDigits(r);
    }
  }

  /** An amount that rounds to 0..999 is printed without any dot. */
  lemma MoneyClpSmall(value: real)
    requires 0 <= RoundHalfUp(value) < 1000
    ensures MoneyClp(value) == "$ " + NatToString(RoundHalfUp(value))
    ensures '.' !in MoneyClp(value)
  {
    var s := NatToString(RoundHalfUp(value));
    assert forall i :: 0 <= i < |s| ==> s[i] != '.';
  }

  /** `money_clp(1234567) == "$ 1.234.567"`. */
  lemma MoneyClpMillions()
    ensures MoneyClp(1234567.0) == "$ 1.234.567"
  {
    assert RoundHalfUp(1234567.0) == 1234567;
    GroupsOfMillions();
  }

  lemma GroupsOfMillions()
    ensures GroupDigits(1234567) == "1.234.567"
  {
    GroupsOfThousands();
    assert NatToString(56) == "56";
    assert NatToString(567) == "567";
    assert ZeroPad("567", 3) == "567";
  }

  lemma GroupsOfThousands()
    ensures GroupDigits(1234) == "1.234"
  {
    assert NatToString(23) == "23";
    assert NatToString(234) == "234";
    assert ZeroPad("234", 3) == "234";
  }

  /** A negative amount keeps its minus before the first group: `"$ -1.234"`. */
  lemma MoneyClpNegative()
    ensures MoneyClp(-1234.0) == "$ -1.234"
  {
    assert RoundHalfUp(-1234.0) == -1234;
    GroupsOfThousands();
  }

  /** 999.5 rounds up into a new group, which is zero padded: `"$ 1.000"`. */
  lemma MoneyClpHalfUp()
    ensures MoneyClp(999.5) == "$ 1.000"
  {
    assert RoundHalfUp(999.5) == 1000;
    assert ZeroPad("0", 3) == "000";
    assert GroupDigits(1000) == "1.000";
  }

  // ---------------------------------------------------------------- to_decimal

  /** `to_decimal(x)` on the text `str(x)`: its value as a `Decimal`, or 0 where the
      constructor raises. */
  function ToDecimal(s: string): real {
    ParseDecimal(s).GetOr(0.0)
  }

  /** `str` of an integer is read back exactly. */
  lemma ToDecimalOfInt(i: int)
    ensures ToDecimal(IntToString(i)) == i as real
  {
    ParseIntToString(i);
  }

  /** A literal with a decimal point is read as its digits over a power of ten. */
  lemma ToDecimalOfPoint(negative: bool, ip: string, fp: string)
    requires AllDigits(ip) && AllDigits(fp) && (ip != [] || fp != [])
    ensures AllDigits(ip + fp)
    ensures var v := DigitsValue(ip + fp) as real / Pow10(|fp|) as real;
      ToDecimal(PointLiteral(negative, ip, fp)) == if negative then -v else v
  {
    ParsePointLiteral(negative, ip, fp);
    PointValueQuotient(ip, fp);
  }

  /** Text holding a character that is neither whitespace nor part of a numeric
      literal is read as 0 instead of raising. */
  lemma ToDecimalRejects(s: string, k: nat)
    requires k < |s| && !IsSpace(s[k]) && !IsLiteralChar(s[k])
    ensures ToDecimal(s) == 0.0
  {
    if ParseDecimal(s).Some? {
      ParsedCharacters(s);
      assert false;
    }
  }

  /** Empty or blank text is read as 0. */
  lemma ToDecimalBlank(s: string)
    requires forall i :: 0 <= i < |s| ==> IsSpace(s[i])
    ensures ToDecimal(s) == 0.0
  {
    assert Strip(s) == [];
    assert ParseSigned([]) == None;
  }

  /** A word is read as 0. */
  lemma ToDecimalWord()
    ensures ToDecimal("abc") == 0.0
  {
    ToDecimalRejects("abc", 0);
  }

  /** A price with cents is read exactly. */
  lemma ToDecimalCents()
    ensures ToDecimal("333.33") == 333.33
  {
    CentsValue();
    ToDecimalPointValue("333.33", "333", "33", 333.33);
  }

  lemma CentsValue()
    ensures PointLiteral(false, "333", "33") == "333.33"
    ensures AllDigits("333" + "33")
    ensures DigitsValue("333" + "33") as real / Pow10(2) as real == 333.33
  {
    assert "333" + "33" == "3333" + ['3'];
    assert "3333" == "333" + ['3'];
    assert "333" == "33" + ['3'];
    assert "33" == "3" + ['3'];
    assert "3" == "" + ['3'];
    DigitsSnoc("", '3');
    DigitsSnoc("3", '3');
    DigitsSnoc("33", '3');
    DigitsSnoc("333", '3');
    DigitsSnoc("3333", '3');
    assert DigitsValue("333" + "33") == 33333;
    assert Pow10(2) == 100;
  }

  /** The text Python gives a float, `str(50000.0)`, is read as its value. */
  lemma ToDecimalFloatText()
    ensures ToDecimal("50000.0") == 50000.0
  {
    FloatTextValue();
    ToDecimalPointValue("50000.0", "50000", "0", 50000.0);
  }

  lemma FloatTextValue()
    ensures PointLiteral(false, "50000", "0") == "50000.0"
    ensures AllDigits("50000" + "0")
    ensures DigitsValue("50000" + "0") as real / Pow10(1) as real == 50000.0
  {
    assert "50000" + "0" == "50000" + ['0'];
    assert "50000" == "5000" + ['0'];
    assert "5000" == "500" + ['0'];
    assert "500" == "50" + ['0'];
    assert "50" == "5" + ['0'];
    assert "5" == "" + ['5'];
    DigitsSnoc("", '5');
    DigitsSnoc("5", '0');
    DigitsSnoc("50", '0');
    DigitsSnoc("500", '0');
    DigitsSnoc("5000", '0');
    DigitsSnoc("50000", '0');
    assert DigitsValue("50000" + "0") == 500000;
    assert Pow10(1) == 10;
  }

  lemma ToDecimalPointValue(s: string, ip: string, fp: string, v: real)
    requires AllDigits(ip) && AllDigits(fp) && (ip != [] || fp != [])
    requires s == PointLiteral(false, ip, fp)
    requires AllDigits(ip + fp) && DigitsValue(ip + fp) as real / Pow10(|fp|) as real == v
    ensures ToDecimal(s) == v
  {
    ToDecimalOfPoint(false, ip, fp);
  }

  lemma DigitsSnoc(s: string, c: char)
    requires AllDigits(s) && IsDigit(c)
    ensures AllDigits(s + [c])
    ensures DigitsValue(s + [c]) == DigitsValue(s) * 10 + DigitValue(c)
  {
    assert (s + [c])[..|s|] == s;
  }
}
