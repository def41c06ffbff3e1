/**
 * The decimal conversion `GetKeyAsInt` applies to a configuration value: Go's
 * `strconv.Atoi` on a 64-bit platform, and the decimal formatting it inverts.
 */
module Strconv {
  import opened Wrappers

  const MinInt64: int := -0x8000_0000_0000_0000
  const MaxInt64: int := 0x7fff_ffff_ffff_ffff

  predicate IsDigit(c: char) {
    '0' <= c <= '9'
  }

  predicate AllDigits(s: string) {
    forall i :: 0 <= i < |s| ==> IsDigit(s[i])
  }

  function DigitValue(c: char): nat
    requires IsDigit(c)
  {
    c as int - '0' as int
  }

  function DigitChar(d: nat): char
    requires d < 10
  {
    ('0' as int + d) as char
  }

  /** The value of a string of decimal digits, most significant first. */
  function DigitsValue(ds: string): nat
    requires AllDigits(ds)
  {
    if ds == [] then 0 else DigitsValue(ds[..|ds| - 1]) * 10 + DigitValue(ds[|ds| - 1])
  }

  /** The sign and digits of `s`: a leading `-` or `+` is taken off, anything else stays. */
  function SplitSign(s: string): (r: (bool, string))
    ensures |r.1| <= |s| && |r.1| >= |s| - 1
  {
    if s != [] && (s[0] == '-' || s[0] == '+') then (s[0] == '-', s[1..]) else (false, s)
  }

  /**
   * `strconv.Atoi`: an optional sign followed by one or more decimal digits,
   * whose value fits in 64 bits. Anything else (the empty string, a lone sign,
   * any other character, an out-of-range value) is an error.
   */
  function Atoi(s: string): (r: Option<int>)
    ensures r.Some? ==> MinInt64 <= r.value <= MaxInt64
    ensures r.Some? ==> s != [] && (IsDigit(s[0]) || s[0] == '-' || s[0] == '+')
    ensures r.Some? ==> forall i :: 0 < i < |s| ==> IsDigit(s[i])
    ensures r.Some? && s[0] == '-' ==> r.value <= 0
    ensures r.Some? && s[0] != '-' ==> r.value >= 0
  {
    var (negative, ds) := SplitSign(s);
    if ds == [] || !AllDigits(ds) then None
    else
      assert forall i :: 0 < i < |s| ==> s[i] == (if s[0] == '-' || s[0] == '+' then ds[i - 1] else ds[i]);
      var v: int := if negative then -(DigitsValue(ds) as int) else DigitsValue(ds);
      if MinInt64 <= v <= MaxInt64 then Some(v) else None
  }

  /** The shortest decimal digits of `n`. */
  function NatDigits(n: nat): (ds: string)
    ensures ds != [] && AllDigits(ds)
  {
    if n < 10 then [DigitChar(n)] else NatDigits(n / 10) + [DigitChar(n % 10)]
  }

  /** `strconv.Itoa`: the decimal form of `n`, with a `-` when it is negative. */
  function Itoa(n: int): (s: string)
    ensures s != []
  {
    if n < 0 then "-" + NatDigits(-n) else NatDigits(n)
  }

  lemma {:induction false} DigitsValueOfNatDigits(n: nat)
    ensures DigitsValue(NatDigits(n)) == n
  {
    if n >= 10 {
      var ds := NatDigits(n);
      assert ds[..|ds| - 1] == NatDigits(n / 10);
      DigitsValueOfNatDigits(n / 10);
    }
  }

  /** Every 64-bit integer survives formatting and parsing back. */
  lemma AtoiItoa(n: int)
    requires MinInt64 <= n <= MaxInt64
    ensures Atoi(Itoa(n)) == Some(n)
  {
    var s := Itoa(n);
    if n < 0 {
      assert SplitSign(s) == (true, NatDigits(-n));
      DigitsValueOfNatDigits(-n);
    } else {
      assert SplitSign(s) == (false, NatDigits(n));
      DigitsValueOfNatDigits(n);
    }
  }

  /** A leading zero does not change the value of a digit string. */
  lemma {:induction false} LeadingZeroIgnored(ds: string)
    requires AllDigits(ds)
    ensures AllDigits("0" + ds) && DigitsValue("0" + ds) == DigitsValue(ds)
    decreases |ds|
  {
    var zs := "0" + ds;
    assert AllDigits(zs) by {
      forall i | 0 <= i < |zs| ensures IsDigit(zs[i]) {
        if i > 0 { assert zs[i] == ds[i - 1]; }
      }
    }
    if ds != [] {
      var init := ds[..|ds| - 1];
      assert zs[..|zs| - 1] == "0" + init;
      assert zs[|zs| - 1] == ds[|ds| - 1];
      LeadingZeroIgnored(init);
    }
  }

  /**
   * Every optional sign followed by one or more digits converts to its value
   * when that value fits in 64 bits, and is an error otherwise.
   */
  lemma AtoiOfDigits(sign: string, ds: string)
    requires sign == "" || sign == "+" || sign == "-"
    requires ds != [] && AllDigits(ds)
    ensures var v: int := if sign == "-" then -(DigitsValue(ds) as int) else DigitsValue(ds);
      Atoi(sign + ds) == if MinInt64 <= v <= MaxInt64 then Some(v) else None
  {
    var s := sign + ds;
    if sign == "" {
      assert s == ds && IsDigit(ds[0]);
    } else {
      assert s[1..] == ds;
    }
    assert SplitSign(s) == (sign == "-", ds);
  }

  /** A `+` sign changes nothing. */
  lemma PlusSignIgnored(ds: string)
    requires AllDigits(ds)
    ensures Atoi("+" + ds) == Atoi(ds)
  {
    if ds == [] {
      assert "+" + ds == "+";
    } else {
      AtoiOfDigits("+", ds);
      AtoiOfDigits("", ds);
      assert "" + ds == ds;
    }
  }

  /** A leading zero after the sign does not change the result. */
  lemma AtoiLeadingZero(sign: string, ds: string)
    requires sign == "" || sign == "+" || sign == "-"
    requires ds != [] && AllDigits(ds)
    ensures Atoi(sign + "0" + ds) == Atoi(sign + ds)
  {
    LeadingZeroIgnored(ds);
    AtoiOfDigits(sign, "0" + ds);
    AtoiOfDigits(sign, ds);
    assert sign + "0" + ds == sign + ("0" + ds);
  }

  /** `+7` converts to 7. */
  lemma ConvertsPlusSign()
    ensures Atoi("+7") == Some(7)
  {
    PlusSignIgnored("7");
    assert "+" + "7" == "+7";
    ConvertsSingleDigit();
  }

  lemma ZeroPrefixesSpelled()
    ensures "" + "0" + "07" == "007" && "" + "07" == "07"
    ensures "" + "0" + "7" == "07" && "" + "7" == "7"
    ensures AllDigits("07") && AllDigits("7")
  {
  }

  /** `007` converts to 7. */
  lemma ConvertsLeadingZeros()
    ensures Atoi("007") == Some(7)
  {
    ZeroPrefixesSpelled();
    AtoiLeadingZero("", "07");
    AtoiLeadingZero("", "7");
    ConvertsSingleDigit();
  }

  lemma ConvertsSingleDigit()
    ensures Atoi("7") == Some(7)
  {
    assert SplitSign("7") == (false, "7");
    assert "7"[..0] == "";
  }

  /** `-0` converts to 0. */
  lemma ConvertsNegativeZero()
    ensures Atoi("-0") == Some(0)
  {
    AtoiOfDigits("-", "0");
    assert "-" + "0" == "-0";
    assert "0"[..0] == "";
  }

  /** The value held in the test configuration, `123`, converts. */
  lemma ConvertsDecimal()
    ensures Atoi("123") == Some(123)
  {
    assert SplitSign("123") == (false, "123");
    assert "123"[..2] == "12" && "12"[..1] == "1" && "1"[..0] == "";
  }

  /** A value with letters is an error. */
  lemma RejectsLetters()
    ensures Atoi("ABC") == None
  {
  }

  /** The empty string and a lone sign are errors. */
  lemma RejectsNoDigits()
    ensures Atoi("") == None && Atoi("+") == None && Atoi("-") == None
  {
  }

  /** A negative value converts. */
  lemma ConvertsNegative()
    ensures Atoi("-5") == Some(-5)
  {
    assert SplitSign("-5") == (true, "5");
    assert "5"[..0] == "";
  }

  /** One past the largest 64-bit integer is out of range. */
  lemma RejectsOverflow()
    ensures Atoi(Itoa(MaxInt64 + 1)) == None
  {
    var s := Itoa(MaxInt64 + 1);
    assert SplitSign(s) == (false, NatDigits(MaxInt64 + 1));
    DigitsValueOfNatDigits(MaxInt64 + 1);
  }
}
