/** Java's 32-bit `int`, its decimal rendering (`String.valueOf(int)`,
    `String.format("%d", int)`) and `Integer.parseInt`. */
module JavaIntegers {
  import opened Wrappers
  import opened JavaStrings

  const MinInt32: int := -0x8000_0000
  const MaxInt32: int := 0x7fff_ffff

  predicate InInt32(v: int) {
    MinInt32 <= v <= MaxInt32
  }

  type Int32 = v: int | -0x8000_0000 <= v <= 0x7fff_ffff

  function DigitChar(d: int): (c: char)
    requires 0 <= d < 10
    ensures IsDigit(c)
  {
    ('0' as int + d) as char
  }

  function DigitValue(c: char): (d: int)
    requires IsDigit(c)
    ensures 0 <= d < 10
  {
    c as int - '0' as int
  }

  /** Decimal digits of a natural number, most significant first, with no
      leading zero. */
  function NatDecimal(n: nat): (r: string)
    ensures r != [] && AllDigits(r)
    ensures |r| > 1 ==> r[0] != '0'
  {
    if n < 10 then [DigitChar(n)]
    else NatDecimal(n / 10) + [DigitChar(n % 10)]
  }

  /** Decimal rendering of an integer: a minus sign for negative values. */
  function Decimal(n: int): (r: string)
    ensures r != []
    ensures n < 0 <==> r[0] == '-'
    ensures n >= 0 ==> AllDigits(r)
    ensures n < 0 ==> AllDigits(r[1..])
  {
    if n < 0 then "-" + NatDecimal(-n) else NatDecimal(n)
  }

  /** Value of a digit string read left to right: each digit multiplies the
      value so far by ten and adds itself, as `Integer.parseInt` does. */
  function DigitsValue(s: string): nat
    requires AllDigits(s)
  {
    if s == [] then 0
    else DigitsValue(s[..|s| - 1]) * 10 + DigitValue(s[|s| - 1])
  }

  /** The value an optional sign and a non-empty run of digits denote,
      before any range check; `None` for every other string. */
  function ReadDecimal(s: string): (r: Option<int>)
    ensures r.Some? <==>
      (s != [] && (AllDigits(s) || ((s[0] == '-' || s[0] == '+') && |s| > 1 && AllDigits(s[1..]))))
    ensures AllDigits(s) && s != [] ==> r == Some(DigitsValue(s))
    ensures |s| > 1 && s[0] == '-' && AllDigits(s[1..]) ==> r == Some(0 - DigitsValue(s[1..]))
    ensures |s| > 1 && s[0] == '+' && AllDigits(s[1..]) ==> r == Some(DigitsValue(s[1..]))
  {
    if s == [] then None
    else if s[0] == '-' || s[0] == '+' then
      var digits := s[1..];
      if digits == [] || !AllDigits(digits) then None
      else if s[0] == '-' then Some(0 - DigitsValue(digits) as int)
      else Some(DigitsValue(digits))
    else if AllDigits(s) then Some(DigitsValue(s))
    else None
  }

  /** `Integer.parseInt(s)`: `None` stands for the `NumberFormatException`
      thrown for an empty string, a stray character or a value outside the
      32-bit range. */
  function ParseInt(s: string): (r: Option<Int32>)
    ensures r.Some? <==> ReadDecimal(s).Some? && InInt32(ReadDecimal(s).value)
    ensures r.Some? ==> r.value == ReadDecimal(s).value
  {
    match ReadDecimal(s)
    case Some(v) => if InInt32(v) then Some(v) else None
    case None => None
  }

  /** A stray character or a lone sign is refused, a sign is read, and
      leading zeros do not matter. */
  lemma ParseIntExamples()
    ensures ParseInt("1a") == None
    ensures ParseInt("+") == None && ParseInt("-") == None
    ensures ParseInt("+7") == Some(7)
    ensures ParseInt("-007") == Some(-7)
    ensures ParseInt("2147483648") == None
    ensures ParseInt("-2147483648") == Some(-2147483648)
  {
    assert !IsDigit("1a"[1]);
    assert "+7"[1..] == "7" && "-007"[1..] == "007";
    assert "007"[..2] == "00" && "00"[..1] == "0";
    assert "-2147483648"[1..] == "2147483648";
    DigitsValueOfMaxPlusOne();
  }

  lemma DigitsValueOfMaxPlusOne()
    ensures DigitsValue("2147483648") == 2147483648
  {
    var s := "2147483648";
    assert s[..1][..0] == [];
    assert DigitsValue(s[..1]) == 2;
    assert s[..2][..1] == s[..1];
    assert DigitsValue(s[..2]) == 21;
    assert s[..3][..2] == s[..2];
    assert DigitsValue(s[..3]) == 214;
    assert s[..4][..3] == s[..3];
    assert DigitsValue(s[..4]) == 2147;
    assert s[..5][..4] == s[..4];
    assert DigitsValue(s[..5]) == 21474;
    assert s[..6][..5] == s[..5];
    assert DigitsValue(s[..6]) == 214748;
    assert s[..7][..6] == s[..6];
    assert DigitsValue(s[..7]) == 2147483;
    assert s[..8][..7] == s[..7];
    assert DigitsValue(s[..8]) == 21474836;
    assert s[..9][..8] == s[..8];
    assert DigitsValue(s[..9]) == 214748364;
    assert s[..9] == s[..|s| - 1];
  }

  /** Reading back the digits of `n` gives `n`. */
  lemma {:induction false} NatDecimalRoundTrip(n: nat)
    ensures DigitsValue(NatDecimal(n)) == n
  {
    var s := NatDecimal(n);
    if n < 10 {
      assert s[..|s| - 1] == [];
    } else {
      NatDecimalRoundTrip(n / 10);
      assert s[..|s| - 1] == NatDecimal(n / 10);
    }
  }

  /** Reading the decimal rendering of any integer gives it back. */
  lemma DecimalRoundTrip(n: int)
    ensures ReadDecimal(Decimal(n)) == Some(n)
  {
    if n < 0 {
      var d := NatDecimal(-n);
      assert Decimal(n)[1..] == d;
      NatDecimalRoundTrip(-n);
    } else {
      NatDecimalRoundTrip(n);
    }
  }

  /** `Integer.parseInt(String.valueOf(n)) == n` for every 32-bit `n`. */
  lemma ParseIntOfDecimal(n: Int32)
    ensures ParseInt(Decimal(n)) == Some(n)
  {
    DecimalRoundTrip(n);
  }

  /** Distinct integers have distinct decimal renderings. */
  lemma DecimalInjective(m: int, n: int)
    requires Decimal(m) == Decimal(n)
    ensures m == n
  {
    DecimalRoundTrip(m);
    DecimalRoundTrip(n);
  }

  /** On a string of digits alone, `Integer.parseInt` fails exactly for the
      empty string and for values above `MaxInt32`. */
  lemma ParseIntOfDigits(s: string)
    requires AllDigits(s)
    ensures ParseInt(s).Some? <==> s != [] && DigitsValue(s) <= MaxInt32
    ensures ParseInt(s).Some? ==> ParseInt(s).value == DigitsValue(s)
  {
  }
}
