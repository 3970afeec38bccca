/** Machine integers as bounded mathematical integers, and the powers that bound them. */
module Words {
  const U32_LIMIT: nat := 0x1_0000_0000
  const U64_LIMIT: nat := 0x1_0000_0000_0000_0000
  const U64_MAX: nat := 0xffff_ffff_ffff_ffff

  type uint8 = n: nat | n < 0x100
  type uint16 = n: nat | n < 0x1_0000
  type uint32 = n: nat | n < 0x1_0000_0000
  type uint64 = n: nat | n < 0x1_0000_0000_0000_0000
  type int64 = n: int | -0x8000_0000_0000_0000 <= n < 0x8000_0000_0000_0000

  function Min(x: int, y: int): int {
    if x <= y then x else y
  }

  function Max(x: int, y: int): int {
    if x <= y then y else x
  }

  function Exp(base: nat, n: nat): nat {
    if n == 0 then 1 else base * Exp(base, n - 1)
  }

  lemma {:induction false} ExpPositive(base: nat, n: nat)
    requires base > 0
    ensures Exp(base, n) > 0
  {
    if n > 0 {
      ExpPositive(base, n - 1);
    }
  }

  lemma {:induction false} ExpAdd(base: nat, m: nat, n: nat)
    ensures Exp(base, m + n) == Exp(base, m) * Exp(base, n)
  {
    if m > 0 {
      ExpAdd(base, m - 1, n);
      Associate(base, Exp(base, m - 1), Exp(base, n));
    }
  }

  lemma Associate(x: int, y: int, z: int)
    ensures x * (y * z) == (x * y) * z
  {
  }

  lemma {:induction false} ExpMonotone(base: nat, m: nat, n: nat)
    requires base > 0 && m <= n
    ensures Exp(base, m) <= Exp(base, n)
  {
    if m < n {
      ExpMonotone(base, m, n - 1);
      Grows(base, Exp(base, n - 1));
    }
  }

  lemma Grows(base: nat, x: nat)
    requires base > 0
    ensures x <= base * x
  {
    assert base * x == (base - 1) * x + x;
  }

  /** Seven-bit digits: `2^(7k)` is `128^k`. */
  lemma {:induction false} ExpSevenBits(k: nat)
    ensures Exp(2, 7 * k) == Exp(128, k)
  {
    if k > 0 {
      ExpSevenBits(k - 1);
      ExpAdd(2, 7, 7 * (k - 1));
      assert Exp(2, 7) == 128 by {
        assert Exp(2, 3) == 8;
        assert Exp(2, 5) == 32;
      }
    }
  }

  /** The byte widths that bound the machine integers. */
  lemma ExpWidths()
    ensures Exp(256, 1) == 0x100
    ensures Exp(256, 2) == 0x1_0000
    ensures Exp(256, 4) == 0x1_0000_0000
    ensures Exp(256, 8) == 0x1_0000_0000_0000_0000
  {
    assert Exp(256, 1) == 256 * Exp(256, 0);
    assert Exp(256, 2) == 256 * Exp(256, 1);
    assert Exp(256, 3) == 256 * Exp(256, 2);
    assert Exp(256, 4) == 256 * Exp(256, 3);
    assert Exp(256, 5) == 256 * Exp(256, 4);
    assert Exp(256, 6) == 256 * Exp(256, 5);
    assert Exp(256, 7) == 256 * Exp(256, 6);
    assert Exp(256, 8) == 256 * Exp(256, 7);
  }

  /** `2^63` and `2^64`, the bounds of the widest LEB128 values. */
  lemma ExpBits()
    ensures Exp(2, 63) == 0x8000_0000_0000_0000
    ensures Exp(2, 64) == 0x1_0000_0000_0000_0000
  {
    ExpSevenBits(9);
    assert Exp(128, 1) == 128;
    assert Exp(128, 2) == 128 * Exp(128, 1);
    assert Exp(128, 3) == 128 * Exp(128, 2);
    assert Exp(128, 4) == 128 * Exp(128, 3);
    assert Exp(128, 5) == 128 * Exp(128, 4);
    assert Exp(128, 6) == 128 * Exp(128, 5);
    assert Exp(128, 7) == 128 * Exp(128, 6);
    assert Exp(128, 8) == 128 * Exp(128, 7);
    assert Exp(128, 9) == 128 * Exp(128, 8);
    assert Exp(2, 64) == 2 * Exp(2, 63);
  }

  lemma ProductBound(x: nat, y: nat)
    requires y >= 1
    ensures x * y >= x
  {
    assert x * y == x * (y - 1) + x;
  }

  lemma OnlyZeroMultipleBelow(divisor: nat, k: int, remainder: nat)
    requires divisor * k == remainder < divisor
    ensures k == 0
  {
    if k >= 1 {
      ProductBound(divisor, k);
    } else if k <= -1 {
      NegativeProduct(divisor, k);
    }
  }

  lemma NegativeProduct(x: nat, y: int)
    requires x > 0 && y < 0
    ensures x * y < 0
  {
  }

  /** Quotient and remainder are determined by the division equation. */
  lemma DivModUnique(divisor: nat, quotient: nat, remainder: nat)
    requires remainder < divisor
    ensures (remainder + quotient * divisor) / divisor == quotient
    ensures (remainder + quotient * divisor) % divisor == remainder
  {
    var x := remainder + quotient * divisor;
    var q, r := x / divisor, x % divisor;
    assert divisor * (q - quotient) == remainder - r;
    if remainder >= r {
      OnlyZeroMultipleBelow(divisor, q - quotient, remainder - r);
    } else {
      assert divisor * (quotient - q) == r - remainder;
      OnlyZeroMultipleBelow(divisor, quotient - q, r - remainder);
    }
  }
}
