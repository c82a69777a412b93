/** Decimal printing and parsing of integers (`fmt` verbs %d and %0Nd, `strconv.ParseInt`). */
module Decimal {
  import opened Wrappers

  const MIN_INT64 := -0x8000_0000_0000_0000
  const MAX_INT64 := 0x7fff_ffff_ffff_ffff

  function Pow10(k: nat): (p: nat)
    ensures p > 0
  {
    if k == 0 then 1 else 10 * Pow10(k - 1)
  }

  predicate IsDigit(c: char) {
    '0' <= c <= '9'
  }

  ghost predicate AllDigits(s: string) {
    forall i :: 0 <= i < |s| ==> IsDigit(s[i])
  }

  function Digit(k: int): char
    requires 0 <= k < 10
  {
    "0123456789"[k]
  }

  function DigitValue(c: char): (k: int)
    requires IsDigit(c)
    ensures 0 <= k < 10 && Digit(k) == c
  {
    c as int - '0' as int
  }

  /** The value of a digit string; leading zeros are allowed and "" is 0. */
  function Number(s: string): nat
    requires AllDigits(s)
  {
    if s == "" then 0 else 10 * Number(s[..|s| - 1]) + DigitValue(s[|s| - 1])
  }

  /** The last `width` digits of n, padded with zeros on the left. */
  function Padded(n: nat, width: nat): string {
    if width == 0 then "" else Padded(n / 10, width - 1) + [Digit(n % 10)]
  }

  /** n without leading zeros. */
  function Print(n: nat): string {
    if n < 10 then [Digit(n)] else Print(n / 10) + [Digit(n % 10)]
  }

  lemma {:induction false} PaddedIsDigits(n: nat, width: nat)
    ensures |Padded(n, width)| == width && AllDigits(Padded(n, width))
  {
    if width > 0 {
      PaddedIsDigits(n / 10, width - 1);
    }
  }

  lemma NumberAppend(s: string, d: int)
    requires AllDigits(s) && 0 <= d < 10
    ensures AllDigits(s + [Digit(d)]) && Number(s + [Digit(d)]) == 10 * Number(s) + d
  {
    var t := s + [Digit(d)];
    assert t[..|t| - 1] == s;
    assert IsDigit(Digit(d)) && DigitValue(Digit(d)) == d;
  }

  lemma {:induction false} NumberOfPadded(n: nat, width: nat)
    requires n < Pow10(width)
    ensures |Padded(n, width)| == width && AllDigits(Padded(n, width))
    ensures Number(Padded(n, width)) == n
  {
    if width > 0 {
      NumberOfPadded(n / 10, width - 1);
      NumberAppend(Padded(n / 10, width - 1), n % 10);
    }
  }

  lemma {:induction false} PaddedOfNumber(s: string)
    requires AllDigits(s)
    ensures Number(s) < Pow10(|s|) && Padded(Number(s), |s|) == s
  {
    if s != "" {
      var front, d := s[..|s| - 1], DigitValue(s[|s| - 1]);
      PaddedOfNumber(front);
      assert Number(s) / 10 == Number(front) && Number(s) % 10 == d;
      assert s == front + [Digit(d)];
    }
  }

  lemma {:induction false} NumberOfPrint(n: nat)
    ensures Print(n) != "" && AllDigits(Print(n)) && Number(Print(n)) == n
  {
    if n >= 10 {
      NumberOfPrint(n / 10);
      hide Number;
      NumberAppend(Print(n / 10), n % 10);
    }
  }

  lemma {:induction false} PrintLength(n: nat, width: nat)
    requires Pow10(width) <= n
    ensures width < |Print(n)|
  {
    if width > 0 {
      PrintLength(n / 10, width - 1);
    }
  }

  /** %d of a signed integer. */
  function PrintInt(n: int): string {
    if n < 0 then "-" + Print(-n) else Print(n)
  }

  /** Four digits for years 0 to 9999; more digits or a minus sign beyond. */
  function PrintYear(y: int): string {
    if 0 <= y <= 9999 then Padded(y, 4)
    else if y < 0 then "-" + (if y > -10000 then Padded(-y, 4) else Print(-y))
    else Print(y)
  }

  /** `strconv.ParseInt(s, 10, 64)`: an optional sign, at least one digit, no other characters, in range. */
  function ParseInt64(s: string): Option<int> {
    if s != "" && s[0] == '-' then InRange(s[1..], true)
    else if s != "" && s[0] == '+' then InRange(s[1..], false)
    else InRange(s, false)
  }

  function InRange(digits: string, negative: bool): Option<int> {
    if digits == "" || !IsNumeral(digits) then None
    else
      var magnitude: int := Number(digits);
      var n := if negative then -magnitude else magnitude;
      if MIN_INT64 <= n <= MAX_INT64 then Some(n) else None
  }

  predicate IsNumeral(s: string)
    ensures IsNumeral(s) <==> AllDigits(s)
  {
    forall i :: 0 <= i < |s| ==> IsDigit(s[i])
  }

  /** `width` digits at position `at` that spell n. */
  ghost predicate Spells(s: string, at: nat, width: nat, n: nat) {
    at + width <= |s| && AllDigits(s[at..at + width]) && Number(s[at..at + width]) == n
  }

  lemma {:induction false} NoLeadingZero(n: nat)
    requires n > 0
    ensures Print(n) != "" && Print(n)[0] != '0'
  {
    if n >= 10 {
      NoLeadingZero(n / 10);
    }
  }

  /** A minus sign for negative numbers only, then the digits without leading zeros. */
  lemma IntShape(n: int)
    ensures n < 0 ==> PrintInt(n)[0] == '-' && Spells(PrintInt(n), 1, |PrintInt(n)| - 1, -n) && PrintInt(n)[1] != '0'
    ensures n >= 0 ==> Spells(PrintInt(n), 0, |PrintInt(n)|, n) && (n > 0 ==> PrintInt(n)[0] != '0') && (n == 0 ==> PrintInt(n) == "0")
  {
    var s, m := PrintInt(n), if n < 0 then -n else n;
    NumberOfPrint(m);
    if m > 0 {
      NoLeadingZero(m);
    }
    hide Print, Number;
    if n < 0 {
      assert s[1..1 + (|s| - 1)] == Print(m);
    } else {
      assert s[0..0 + |s|] == Print(m);
    }
  }

  lemma ParsePrintedInt(n: int)
    ensures ParseInt64(PrintInt(n)) == if -9_223_372_036_854_775_808 <= n <= 9_223_372_036_854_775_807 then Some(n) else None
  {
    hide InRange, Print;
    if n < 0 {
      assert PrintInt(n)[1..] == Print(-n);
      PrintedInRange(-n, true);
    } else {
      PrintedInRange(n, false);
    }
  }

  lemma PrintedInRange(magnitude: nat, negative: bool)
    ensures var n := if negative then -(magnitude as int) else magnitude as int;
            InRange(Print(magnitude), negative) == if MIN_INT64 <= n <= MAX_INT64 then Some(n) else None
    ensures Print(magnitude) != "" && IsDigit(Print(magnitude)[0])
  {
    hide Print, Number;
    NumberOfPrint(magnitude);
  }
}
