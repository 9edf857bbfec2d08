/**
  Unsigned 64-bit arithmetic on natural numbers: powers of two, bitwise conjunction, and what the
  mask tricks of the engine compute.
 */
module Masks {
  /** Powers of two. */
  function Pow2(k: nat): (r: nat)
    ensures r > 0
  {
    if k == 0 then 1 else 2 * Pow2(k - 1)
  }

  function Max(a: nat, b: nat): nat { if a < b then b else a }

  const TWO_32: nat := 0x1_0000_0000
  const TWO_63: nat := 0x8000_0000_0000_0000
  const TWO_64: nat := 0x1_0000_0000_0000_0000

  /** Bitwise conjunction of two natural numbers. */
  function And(a: nat, b: nat): nat
    decreases a
  {
    if a == 0 || b == 0 then 0 else 2 * And(a / 2, b / 2) + (if a % 2 == 1 && b % 2 == 1 then 1 else 0)
  }

  /** Bitwise complement of a 64-bit word. */
  function Not64(a: nat): nat
    requires a < TWO_64
  {
    TWO_64 - 1 - a
  }

  lemma {:induction false} Pow2Add(a: nat, b: nat)
    ensures Pow2(a + b) == Pow2(a) * Pow2(b)
    decreases a
  {
    if a > 0 {
      Pow2Add(a - 1, b);
      assert Pow2(a + b) == 2 * Pow2((a - 1) + b);
    }
  }

  lemma Pow2Square(k: nat, v: nat)
    requires Pow2(k) == v
    ensures Pow2(k + k) == v * v
  {
    Pow2Add(k, k);
  }

  lemma Pow2Values()
    ensures Pow2(8) == 256 && Pow2(32) == TWO_32 && Pow2(64) == TWO_64
  {
    assert Pow2(1) == 2;
    hide Pow2;
    Pow2Square(1, 2);
    Pow2Square(2, 4);
    Pow2Square(4, 16);
    Pow2Square(8, 256);
    Pow2Square(16, 0x1_0000);
    Pow2Square(32, TWO_32);
  }

  lemma BytePowers()
    ensures Pow2(0) == 1 && Pow2(8) == 0x100 && Pow2(16) == 0x1_0000 && Pow2(24) == 0x100_0000
  {
    Pow2Values();
    hide Pow2;
    Pow2Square(8, 0x100);
    Pow2Add(16, 8);
    assert Pow2(0) == 1 by { Pow2Zero(); }
  }

  lemma Pow2Zero()
    ensures Pow2(0) == 1
  {}

  lemma {:induction false} Pow2Byte(width: nat)
    requires width > 0
    ensures Pow2(8 * width) == 256 * Pow2(8 * (width - 1))
  {
    Pow2Values();
    Pow2Add(8, 8 * (width - 1));
  }

  lemma {:induction false} Pow2Mono(a: nat, b: nat)
    requires a <= b
    ensures Pow2(a) <= Pow2(b)
    decreases b
  {
    if a < b {
      Pow2Mono(a, b - 1);
    }
  }

  lemma MulStep(n: nat, x: int, y: int)
    requires x < y
    ensures n * x + n <= n * y
  {
    assert n * y == n * x + n + n * (y - x - 1);
  }

  /** Quotient and remainder are unique. */
  lemma ModUnique(a: int, n: nat, q: int, r: nat)
    requires r < n && a == n * q + r
    ensures a % n == r && a / n == q
  {
    var q', r' := a / n, a % n;
    assert n * q - n * q' == r' - r;
    if q > q' {
      MulStep(n, q', q);
    } else if q < q' {
      MulStep(n, q, q');
    }
  }

  lemma ModDouble(a: nat, p: nat)
    requires p > 0
    ensures a % (2 * p) == 2 * (a / 2 % p) + a % 2
  {
    var q, r := a / 2 / p, a / 2 % p;
    assert a / 2 == p * q + r;
    assert a == 2 * (p * q) + (2 * r + a % 2);
    assert 2 * (p * q) == (2 * p) * q;
    ModUnique(a, 2 * p, q, 2 * r + a % 2);
  }

  /** Masking with `2^k - 1` is the remainder modulo `2^k`. */
  lemma {:induction false} MaskIsMod(a: nat, k: nat)
    ensures And(a, Pow2(k) - 1) == a % Pow2(k)
    decreases k
  {
    if k > 0 {
      var p := Pow2(k - 1);
      MaskIsMod(a / 2, k - 1);
      ModDouble(a, p);
      AndOddMask(a, p);
    }
  }

  lemma AndOddMask(a: nat, p: nat)
    requires p > 0
    ensures And(a, 2 * p - 1) == 2 * And(a / 2, p - 1) + a % 2
  {
    assert (2 * p - 1) / 2 == p - 1 && (2 * p - 1) % 2 == 1;
  }

  lemma {:induction false} AndEvenMask(a: nat, m: nat)
    ensures And(a, 2 * m) == 2 * And(a / 2, m)
  {}

  lemma ModBound(a: nat, p: nat)
    requires p > 0
    ensures 0 <= a % p <= a
  {}

  /** Masking with the complement of `2^k - 1` clears the low `k` bits of a word of `w` bits. */
  lemma {:induction false} MaskRoundsDown(a: nat, k: nat, w: nat)
    requires k <= w && a < Pow2(w)
    ensures Pow2(k) <= Pow2(w)
    ensures And(a, Pow2(w) - Pow2(k)) == a - a % Pow2(k)
    decreases w
  {
    hide And;
    Pow2Mono(k, w);
    if k == 0 {
      MaskIsMod(a, w);
      ModUnique(a, Pow2(w), 0, a);
    } else {
      MaskRoundsDown(a / 2, k - 1, w - 1);
      var p, v := Pow2(k - 1), Pow2(w - 1);
      AndEvenMask(a, v - p);
      ModDouble(a, p);
      ModBound(a / 2, p);
    }
  }
}
