/**
  Powers, remainders and decimal digits.
*/
module Numbers {

  newtype byte = x: int | 0 <= x < 256

  // ---- Remainders ----

  lemma Distribute(m: int, q: int, a: int)
    ensures m * q - m * a == m * (q - a)
  {
  }

  lemma AtLeast(m: nat, d: int)
    requires d >= 1
    ensures m * d >= m
  {
  }

  lemma QuotientParts(x: int, m: nat)
    requires m > 0
    ensures x == m * (x / m) + x % m && 0 <= x % m < m
  {
  }

  lemma RemainderUnique(x: int, m: nat, a: int, b: nat)
    requires m > 0 && x == m * a + b && b < m
    ensures x % m == b
  {
    var q, r := x / m, x % m;
    QuotientParts(x, m);
    Distribute(m, q, a);
    Distribute(m, a, q);
    if q > a {
      AtLeast(m, q - a);
    } else if q < a {
      AtLeast(m, a - q);
    }
  }

  lemma SmallRemainder(x: nat, m: nat)
    requires x < m
    ensures x % m == x
  {
  }

  // ---- Powers of two ----

  function Pow2(n: nat): (r: nat)
    ensures r > 0
  {
    if n == 0 then 1 else 2 * Pow2(n - 1)
  }

  lemma {:induction false} Pow2Plus(a: nat, b: nat)
    ensures Pow2(a + b) == Pow2(a) * Pow2(b)
    decreases b
  {
    if b > 0 {
      Pow2Plus(a, b - 1);
      assert Pow2(a + b) == 2 * Pow2(a + (b - 1));
      Swap(Pow2(a), Pow2(b - 1));
    }
  }

  lemma Swap(x: nat, y: nat)
    ensures 2 * (x * y) == x * (2 * y)
  {
  }

  lemma PowersOfTwo()
    ensures Pow2(63) == 0x8000_0000_0000_0000 && Pow2(64) == 0x1_0000_0000_0000_0000
  {
    assert Pow2(4) == 2 * 2 * 2 * 2;
    Pow2Plus(4, 4);
    Pow2Plus(8, 8);
    Pow2Plus(16, 16);
    Pow2Plus(32, 32);
    hide Pow2;
    Pow2Half();
  }

  lemma Pow2Half()
    ensures Pow2(64) == 2 * Pow2(63)
  {
  }

  lemma {:induction false} Pow2Grows(a: nat, b: nat)
    requires a <= b
    ensures Pow2(a) <= Pow2(b)
    decreases b
  {
    if a < b {
      Pow2Grows(a, b - 1);
    }
  }

  // ---- Decimal digits ----

  function Pow10(k: nat): nat {
    if k == 0 then 1 else 10 * Pow10(k - 1)
  }

  type Digit = d: nat | d < 10

  /** A number in decimal, each digit written as a symbol. */
  function Decimal<T>(n: nat, symbol: Digit -> T): (s: seq<T>)
    ensures |s| >= 1
  {
    if n < 10 then [symbol(n)] else Decimal(n / 10, symbol) + [symbol(n % 10)]
  }

  function DigitChar(d: Digit): char {
    "0123456789"[d]
  }

  lemma {:induction false} DecimalLength<T>(n: nat, symbol: Digit -> T, k: nat)
    requires k >= 1 && n < Pow10(k)
    ensures |Decimal(n, symbol)| <= k
    decreases k
  {
    if n >= 10 {
      assert k >= 2 && n / 10 < Pow10(k - 1);
      DecimalLength(n / 10, symbol, k - 1);
    }
  }

  lemma TwentyDigits()
    ensures Pow10(19) > 0x7FFF_FFFF_FFFF_FFFF && Pow10(20) > 0xFFFF_FFFF_FFFF_FFFF
  {
    assert Pow10(5) == 100_000;
    Pow10Five(5);
    Pow10Five(10);
    assert Pow10(19) == 10_000 * Pow10(15) by {
      assert Pow10(17) == 100 * Pow10(15);
    }
  }

  lemma Pow10Five(k: nat)
    ensures Pow10(k + 5) == 100_000 * Pow10(k)
  {
    assert Pow10(k + 2) == 100 * Pow10(k);
    assert Pow10(k + 4) == 100 * Pow10(k + 2);
  }
}
