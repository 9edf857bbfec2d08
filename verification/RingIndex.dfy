/** Index arithmetic of a ring with a power-of-two number of slots. */
module RingIndex {
  import opened Masks

  predicate RingSize(n: nat, k: nat) {
    1 <= k <= 63 && n == Pow2(k)
  }

  /** `i & MASK`. */
  function Wrap(i: nat, n: nat): nat
    requires n > 0
  {
    And(i, n - 1)
  }

  lemma WrapIsMod(i: nat, n: nat, k: nat)
    requires RingSize(n, k)
    ensures n >= 2 && Wrap(i, n) == i % n
  {
    MaskIsMod(i, k);
    Pow2Mono(1, k);
  }

  /** The index behind `i`. */
  lemma NextIndex(i: nat, n: nat, k: nat)
    requires RingSize(n, k) && i < n
    ensures Wrap(i + 1, n) == if i + 1 == n then 0 else i + 1
  {
    WrapIsMod(i + 1, n, k);
    if i + 1 == n {
      ModUnique(n, n, 1, 0);
    } else {
      ModUnique(i + 1, n, 0, i + 1);
    }
  }

  /** Advancing a wrapped counter wraps the advanced counter. */
  lemma WrapNext(count: nat, n: nat, k: nat)
    requires RingSize(n, k)
    ensures n >= 2 && Wrap(count % n + 1, n) == (count + 1) % n
  {
    WrapIsMod(count % n + 1, n, k);
    ModPlus(count, 1, n);
  }

  lemma ModPlus(a: nat, b: nat, n: nat)
    requires n > 0
    ensures (a % n + b) % n == (a + b) % n
  {
    var q, r := a / n, a % n;
    var q', r' := (r + b) / n, (r + b) % n;
    assert a + b == n * q + n * q' + r';
    assert n * q + n * q' == n * (q + q');
    ModUnique(a + b, n, q + q', r');
  }

  /** Two counters at most `n - 1` apart share a slot only when they are equal. */
  lemma SlotsDistinct(a: nat, b: nat, n: nat)
    requires n > 0 && a <= b < a + n
    ensures a % n == b % n <==> a == b
  {
    if a % n == b % n {
      var q, q' := a / n, b / n;
      assert b - a == n * q' - n * q;
      if q' > q {
        MulStep(n, q, q');
      } else if q' < q {
        MulStep(n, q', q);
      }
    }
  }

  /** The slot behind the newest item is the oldest item's exactly when `n - 1` lie between the counters. */
  lemma FullDistance(a: nat, b: nat, n: nat)
    requires n > 0 && a <= b < a + n
    ensures (b + 1) % n == a % n <==> b - a == n - 1
  {
    if b + 1 < a + n {
      SlotsDistinct(a, b + 1, n);
    } else {
      ModUnique(a + n, n, a / n + 1, a % n);
    }
  }

  /** `(t - h + N) & MASK` in unsigned 64-bit arithmetic. */
  function SizeFormula(h: nat, t: nat, n: nat): nat
    requires n > 0
  {
    And(((t - h) % TWO_64 + n) % TWO_64, n - 1)
  }

  lemma RingBelowHalf(n: nat, k: nat)
    requires RingSize(n, k)
    ensures n <= TWO_63
  {
    Pow2Mono(k, 63);
    Pow2Values();
    assert Pow2(64) == 2 * Pow2(63);
  }

  lemma WrappedDistance(h: nat, t: nat, n: nat)
    requires h < n <= TWO_63 && t < n
    ensures ((t - h) % TWO_64 + n) % TWO_64 == t - h + n
  {
    if h <= t {
      assert (t - h) % TWO_64 == t - h;
    } else {
      assert (t - h) % TWO_64 == t - h + TWO_64;
      assert (t - h + TWO_64 + n) % TWO_64 == t - h + n;
    }
  }

  lemma SizeIsDistance(h: nat, t: nat, n: nat, k: nat)
    requires RingSize(n, k) && h < n && t < n
    ensures SizeFormula(h, t, n) == if h <= t then t - h else t - h + n
  {
    hide And, Pow2;
    RingBelowHalf(n, k);
    var d := t - h + n;
    WrappedDistance(h, t, n);
    MaskIsMod(d, k);
    if h <= t {
      ModUnique(d, n, 1, t - h);
    } else {
      ModUnique(d, n, 0, d);
    }
  }
}
