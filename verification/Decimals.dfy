/** Decimal texts read back as numbers, as str::parse does. */
module Decimals {
  import opened Wrappers
  import opened Json
  import opened JsonScan

  /** str::parse::<u32> on a text without a sign. */
  function DigitsValue(s: string): Option<nat> {
    if s == "" || !IsDigit(s[|s| - 1]) then None
    else if |s| == 1 then Some(s[0] as int - '0' as int)
    else
      match DigitsValue(s[..|s| - 1])
      case None => None
      case Some(v) => Some(10 * v + (s[|s| - 1] as int - '0' as int))
  }

  lemma {:induction false} DigitsOfDecimal(n: nat)
    ensures DigitsValue(Decimal(n)) == Some(n)
  {
    if n >= 10 {
      DigitsOfDecimal(n / 10);
      DecimalDigits(n / 10);
      var s := Decimal(n);
      assert s[..|s| - 1] == Decimal(n / 10) && s[|s| - 1] == DigitChar(n % 10);
    }
  }

  /** str::parse: an optional sign, then digits, within the range of the type. */
  function ParseBetween(s: string, low: int, high: int): (parsed: Option<int>)
    ensures parsed.Some? ==> low <= parsed.value <= high
  {
    var signed := s != "" && (s[0] == '+' || (s[0] == '-' && low < 0));
    var digits := DigitsValue(if signed then s[1..] else s);
    if digits.None? then None
    else
      var value := if signed && s[0] == '-' then 0 - digits.value else digits.value;
      if low <= value <= high then Some(value) else None
  }

  lemma {:induction false} NoDigitsAfterMinus(digits: string)
    requires digits != ""
    ensures DigitsValue("-" + digits).None?
  {
    var s := "-" + digits;
    if |digits| > 1 {
      var front := digits[..|digits| - 1];
      NoDigitsAfterMinus(front);
      assert s[..|s| - 1] == "-" + front;
    } else {
      assert s[..|s| - 1] == "-";
    }
  }

  /** A printed number parses if and only if it is in range. */
  lemma ParsesSigned(n: int, low: int, high: int)
    requires low <= 0 <= high
    ensures ParseBetween(Signed(n), low, high) == if low <= n <= high then Some(n) else None
  {
    var digits := Decimal(if n < 0 then -n else n);
    DecimalDigits(if n < 0 then -n else n);
    DigitsOfDecimal(if n < 0 then -n else n);
    if n < 0 {
      assert Signed(n)[0] == '-' && Signed(n)[1..] == digits;
      if low == 0 {
        NoDigitsAfterMinus(digits);
      }
    }
  }

  /** Digits as they are: the sign in front, if the type has it, and nothing else counts. */
  lemma ParsesWithSign(digits: string, low: int, high: int)
    requires DigitsValue(digits).Some? && low <= 0 <= high
    ensures ParseBetween(digits, low, high) == Within(DigitsValue(digits).value, low, high)
    ensures ParseBetween("+" + digits, low, high) == Within(DigitsValue(digits).value, low, high)
    ensures ParseBetween("-" + digits, low, high)
         == if low == 0 then None else Within(0 - DigitsValue(digits).value, low, high)
    ensures ParseBetween("+", low, high) == ParseBetween("-", low, high) == ParseBetween("", low, high) == None
  {
    FirstIsDigit(digits);
    NoDigitsAfterMinus(digits);
    assert ("+" + digits)[1..] == digits && ("-" + digits)[1..] == digits;
    assert "+"[1..] == "" && "-"[1..] == "";
  }

  function Within(n: int, low: int, high: int): Option<int> {
    if low <= n <= high then Some(n) else None
  }

  lemma {:induction false} FirstIsDigit(digits: string)
    requires DigitsValue(digits).Some?
    ensures digits != "" && IsDigit(digits[0])
  {
    if |digits| > 1 {
      FirstIsDigit(digits[..|digits| - 1]);
    }
  }

  function ParseUnsigned(s: string, high: nat): Option<nat> {
    match ParseBetween(s, 0, high)
    case None => None
    case Some(value) => Some(value)
  }

  lemma ParsesDecimal(n: nat, high: nat)
    ensures ParseUnsigned(Decimal(n), high) == if n <= high then Some(n) else None
  {
    ParsesSigned(n, 0, high);
  }

  function Pow10(k: nat): nat {
    if k == 0 then 1 else 10 * Pow10(k - 1)
  }

  lemma {:induction false} DecimalShort(n: nat, k: nat)
    requires k >= 1 && n < Pow10(k)
    ensures |Decimal(n)| <= k
  {
    if n >= 10 {
      DecimalShort(n / 10, k - 1);
    }
  }

  lemma TenDigits(n: nat)
    requires n <= U32_MAX
    ensures |Decimal(n)| <= 10
  {
    assert Pow10(10) == 10_000_000_000 by {
      assert Pow10(5) == 100_000;
    }
    DecimalShort(n, 10);
  }
}
