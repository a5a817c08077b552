/**
 * The `YYYY-MM` month key the processor builds for its duplicate check:
 * `${getFullYear()}-${String(getMonth() + 1).padStart(2, '0')}`.
 * ParseMonthKey reads a key back; the round trip shows that the key names
 * exactly one month.
 */
module MonthKeys {
  import opened Wrappers
  import opened Calendar

  predicate IsDigit(c: char) {
    '0' <= c <= '9'
  }

  function DigitChar(d: int): (c: char)
    requires 0 <= d < 10
    ensures IsDigit(c)
  {
    ('0' as int + d) as char
  }

  function DigitValue(c: char): (d: int)
    requires IsDigit(c)
    ensures 0 <= d < 10 && DigitChar(d) == c
  {
    c as int - '0' as int
  }

  /** `String(n)` for a non-negative integer: decimal digits, no leading zeros. */
  function NatToDecimal(n: nat): (s: string)
    ensures 1 <= |s| && forall i :: 0 <= i < |s| ==> IsDigit(s[i])
    ensures |s| == 1 <==> n < 10
  {
    if n < 10 then [DigitChar(n)] else NatToDecimal(n / 10) + [DigitChar(n % 10)]
  }

  /** `String(y)` for an integer year: a minus sign before the digits of a negative year. */
  function IntToDecimal(i: int): (s: string)
    ensures 1 <= |s| && (s[0] == '-' <==> i < 0)
    ensures forall k :: (if i < 0 then 1 else 0) <= k < |s| ==> IsDigit(s[k])
    ensures i < 0 ==> 2 <= |s|
  {
    if i < 0 then "-" + NatToDecimal(-i) else NatToDecimal(i)
  }

  /** `String(n).padStart(2, '0')`. */
  function PadTwo(n: int): (s: string)
    ensures 0 <= n < 100 ==> s == [DigitChar(n / 10), DigitChar(n % 10)]
  {
    var d := IntToDecimal(n);
    if |d| < 2 then "0" + d
    else
      assert 0 <= n < 100 ==> NatToDecimal(n / 10) == [DigitChar(n / 10)];
      d
  }

  /** The month key of a month: its year, a dash and its month as two digits. */
  function MonthKey(ym: Month): (key: string)
    ensures key == IntToDecimal(ym.year) + "-" + [DigitChar(ym.month / 10), DigitChar(ym.month % 10)]
  {
    IntToDecimal(ym.year) + "-" + PadTwo(ym.month)
  }

  /** The value of a string of decimal digits, read left to right. */
  function DecimalValue(s: string): nat
    requires forall i :: 0 <= i < |s| ==> IsDigit(s[i])
  {
    if |s| == 0 then 0 else DecimalValue(s[..|s| - 1]) * 10 + DigitValue(s[|s| - 1])
  }

  function ParseNat(s: string): Option<nat> {
    if 1 <= |s| && forall i :: 0 <= i < |s| ==> IsDigit(s[i]) then Some(DecimalValue(s)) else None
  }

  function ParseInt(s: string): Option<int> {
    if 1 <= |s| && s[0] == '-' then
      match ParseNat(s[1..])
      case Some(n) => Some(-(n as int))
      case None => None
    else
      match ParseNat(s)
      case Some(n) => Some(n)
      case None => None
  }

  /** Reads a month key: a year, a dash and a two-digit month 01..12. */
  function ParseMonthKey(key: string): Option<Month> {
    if |key| < 4 || key[|key| - 3] != '-' then None
    else
      match (ParseInt(key[..|key| - 3]), ParseNat(key[|key| - 2..]))
      case (Some(y), Some(m)) => if 1 <= m <= 12 then Some(YearMonth(y, m)) else None
      case _ => None
  }

  lemma {:induction false} NatToDecimalValue(n: nat)
    ensures DecimalValue(NatToDecimal(n)) == n
  {
    var s := NatToDecimal(n);
    if n < 10 {
      assert s[..|s| - 1] == [];
    } else {
      NatToDecimalValue(n / 10);
      assert s[..|s| - 1] == NatToDecimal(n / 10);
    }
  }

  lemma NatToDecimalRoundTrip(n: nat)
    ensures ParseNat(NatToDecimal(n)) == Some(n)
  {
    NatToDecimalValue(n);
  }

  lemma IntToDecimalRoundTrip(i: int)
    ensures ParseInt(IntToDecimal(i)) == Some(i)
  {
    if i < 0 {
      NatToDecimalRoundTrip(-i);
      assert IntToDecimal(i)[1..] == NatToDecimal(-i);
    } else {
      NatToDecimalRoundTrip(i);
    }
  }

  lemma TwoDigitsValue(a: int, b: int)
    requires 0 <= a < 10 && 0 <= b < 10
    ensures DecimalValue([DigitChar(a), DigitChar(b)]) == a * 10 + b
  {
    var s := [DigitChar(a), DigitChar(b)];
    assert s[..1] == [DigitChar(a)];
    assert s[..1][..0] == [];
    assert DecimalValue(s[..1]) == DecimalValue(s[..1][..0]) * 10 + DigitValue(DigitChar(a));
    assert DigitValue(DigitChar(a)) == a;
    assert DigitValue(DigitChar(b)) == b;
    assert DecimalValue(s) == DecimalValue(s[..1]) * 10 + DigitValue(DigitChar(b));
  }

  /** A month key reads back as the month it was built from. */
  lemma MonthKeyRoundTrip(ym: Month)
    ensures ParseMonthKey(MonthKey(ym)) == Some(ym)
  {
    var key := MonthKey(ym);
    var y := IntToDecimal(ym.year);
    IntToDecimalRoundTrip(ym.year);
    assert key[..|key| - 3] == y;
    var mm := key[|key| - 2..];
    assert mm == [DigitChar(ym.month / 10), DigitChar(ym.month % 10)];
    TwoDigitsValue(ym.month / 10, ym.month % 10);
  }

  /** Two months share a key only if they are the same month. */
  lemma MonthKeyInjective(a: Month, b: Month)
    ensures MonthKey(a) == MonthKey(b) <==> a == b
  {
    MonthKeyRoundTrip(a);
    MonthKeyRoundTrip(b);
  }

  lemma MonthKeyExample()
    ensures MonthKey(YearMonth(2025, 4)) == "2025-04"
    ensures MonthKey(YearMonth(2024, 12)) == "2024-12"
  {
    assert NatToDecimal(2025) == "2025" by {
      assert NatToDecimal(2) == "2";
      assert NatToDecimal(20) == "20";
      assert NatToDecimal(202) == "202";
    }
    assert NatToDecimal(2024) == "2024" by {
      assert NatToDecimal(2) == "2";
      assert NatToDecimal(20) == "20";
      assert NatToDecimal(202) == "202";
    }
  }
}
