/** Numbers in text: fmt's %d and strconv.Itoa. */
module Decimals {
  const DIGITS := "0123456789"

  function Decimal(n: nat): (s: string)
    ensures s != "" && (|s| == 1 <==> n < 10)
  {
    if n < 10 then [DIGITS[n]] else Decimal(n / 10) + [DIGITS[n % 10]]
  }

  lemma {:induction false} DecimalIsInjective(m: nat, n: nat)
    requires Decimal(m) == Decimal(n)
    ensures m == n
  {
    var s, t := Decimal(m), Decimal(n);
    assert s[|s| - 1] == DIGITS[m % 10] && t[|t| - 1] == DIGITS[n % 10];
    assert m % 10 == n % 10;
    if m >= 10 {
      assert s[..|s| - 1] == Decimal(m / 10) && t[..|t| - 1] == Decimal(n / 10);
      DecimalIsInjective(m / 10, n / 10);
    }
  }

  /** The number that a text of digits stands for. */
  function Reading(s: string): int {
    if s == "" then 0 else 10 * Reading(s[..|s| - 1]) + (s[|s| - 1] as int - '0' as int)
  }

  lemma {:induction false} DecimalReads(n: nat)
    ensures Reading(Decimal(n)) == n && (n > 0 ==> Decimal(n)[0] != '0')
  {
    assert forall d | 0 <= d < 10 :: DIGITS[d] as int - '0' as int == d;
    if n >= 10 {
      DecimalReads(n / 10);
      assert Decimal(n)[..|Decimal(n)| - 1] == Decimal(n / 10);
    } else {
      assert Decimal(n)[..0] == "";
    }
  }

  predicate IsDigit(c: char) {
    '0' <= c <= '9'
  }

  lemma {:induction false} DecimalHasDigits(n: nat)
    ensures forall c <- Decimal(n) :: IsDigit(c)
  {
    assert IsDigit(DIGITS[n % 10]);
    if n >= 10 {
      DecimalHasDigits(n / 10);
    }
  }

  /** Also below zero. */
  function Signed(n: int): string {
    if n < 0 then "-" + Decimal(-n) else Decimal(n)
  }

  lemma SignedIsPlain(n: int)
    ensures forall c <- Signed(n) :: c == '-' || IsDigit(c)
  {
    DecimalHasDigits(if n < 0 then -n else n);
  }

  lemma MinusMeansNegative(n: int)
    ensures n < 0 <==> Signed(n)[0] == '-'
  {
    DecimalHasDigits(if n < 0 then -n else n);
    assert n >= 0 ==> Signed(n)[0] in Decimal(n);
  }

  lemma SignedIsInjective(m: int, n: int)
    requires Signed(m) == Signed(n)
    ensures m == n
  {
    MinusMeansNegative(m);
    MinusMeansNegative(n);
    if m < 0 {
      assert Signed(m)[1..] == Decimal(-m) && Signed(n)[1..] == Decimal(-n);
      DecimalIsInjective(-m, -n);
    } else {
      DecimalIsInjective(m, n);
    }
  }
}
