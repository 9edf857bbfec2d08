/**
  The register step as arithmetic: words are polynomials over the two-element field, the top bit
  standing for 1, and a step multiplies by x modulo the generator. So many steps at once are one
  multiplication, and a multiplication of constants can be carried out.
 */
module CrcField {
  import opened Masks
  import opened Crc32
  import opened CrcBurst
  import CrcStandard

  const TOP: bv32 := 0x8000_0000

  // ---- Steps ----------------------------------------------------------------------------------

  lemma {:induction false} StepsAdd(r: bv32, a: nat, b: nat)
    ensures StepN(r, a + b) == StepN(StepN(r, a), b)
    decreases b
  {
    hide BitStep;
    if b > 0 {
      StepsAdd(r, a, b - 1);
      assert StepN(r, a + b) == BitStep(StepN(r, a + (b - 1)));
    }
  }

  lemma {:induction false} StepsInjective(r: bv32, s: bv32, n: nat)
    requires StepN(r, n) == StepN(s, n)
    ensures r == s
    decreases n
  {
    hide BitStep;
    if n > 0 {
      StepInjective(StepN(r, n - 1), StepN(s, n - 1));
      StepsInjective(r, s, n - 1);
    }
  }

  lemma {:induction false} StepsLinear(r: bv32, s: bv32, n: nat)
    ensures StepN(Xor(r, s), n) == Xor(StepN(r, n), StepN(s, n))
    decreases n
  {
    hide BitStep, Xor;
    if n > 0 {
      StepsLinear(r, s, n - 1);
      StepLinear(StepN(r, n - 1), StepN(s, n - 1));
    }
  }

  lemma StepOfZero()
    ensures BitStep(0) == 0
  {}

  lemma {:induction false} StepsOfZero(n: nat)
    ensures StepN(0, n) == 0
    decreases n
  {
    hide BitStep;
    StepOfZero();
    if n > 0 {
      StepsOfZero(n - 1);
    }
  }

  lemma {:induction false} StepsOfStep(r: bv32, n: nat)
    ensures StepN(BitStep(r), n) == BitStep(StepN(r, n))
    decreases n
  {
    hide BitStep;
    if n > 0 {
      StepsOfStep(r, n - 1);
    }
  }

  // ---- Multiplication -------------------------------------------------------------------------

  /** The lowest `n` coefficients of `c`, highest power first, applied to `b` by Horner's rule. */
  function Horner(acc: bv32, c: bv32, n: nat, b: bv32): bv32
    decreases n
  {
    if n == 0 then acc else Horner(HornerStep(acc, Odd(c), b), Shr(c), n - 1, b)
  }

  function HornerStep(acc: bv32, bit: bool, b: bv32): bv32 {
    if bit then Xor(BitStep(acc), b) else BitStep(acc)
  }

  /** The product of two polynomials modulo the generator. */
  function Mul(c: bv32, b: bv32): bv32 {
    Horner(0, c, 32, b)
  }

  function ShrN(c: bv32, n: nat): bv32
    decreases n
  {
    if n == 0 then c else ShrN(Shr(c), n - 1)
  }

  lemma HornerStepLinear(acc: bv32, acc': bv32, bit: bool, b: bv32, b': bv32)
    ensures HornerStep(Xor(acc, acc'), bit, Xor(b, b')) == Xor(HornerStep(acc, bit, b), HornerStep(acc', bit, b'))
  {
    hide BitStep, Xor;
    StepLinear(acc, acc');
    XorFour(BitStep(acc), BitStep(acc'), b, b');
  }

  lemma XorFour(a: bv32, b: bv32, c: bv32, d: bv32)
    ensures Xor(Xor(a, b), Xor(c, d)) == Xor(Xor(a, c), Xor(b, d))
  {
    hide Xor;
    XorAssoc(Xor(a, b), c, d);
    XorSwap(a, b, c);
    XorSwap(a, c, b);
    XorAssoc(Xor(a, c), b, d);
  }

  lemma {:induction false} HornerLinear(acc: bv32, acc': bv32, c: bv32, n: nat, b: bv32, b': bv32)
    ensures Horner(Xor(acc, acc'), c, n, Xor(b, b')) == Xor(Horner(acc, c, n, b), Horner(acc', c, n, b'))
    decreases n
  {
    hide HornerStep, Xor, Shr, Odd;
    if n > 0 {
      HornerStepLinear(acc, acc', Odd(c), b, b');
      HornerLinear(HornerStep(acc, Odd(c), b), HornerStep(acc', Odd(c), b'), Shr(c), n - 1, b, b');
    }
  }

  lemma HornerStepSum(acc: bv32, acc': bv32, x: bool, y: bool, b: bv32)
    ensures HornerStep(Xor(acc, acc'), x != y, b) == Xor(HornerStep(acc, x, b), HornerStep(acc', y, b))
  {
    hide BitStep, Xor;
    StepLinear(acc, acc');
    var a, a' := BitStep(acc), BitStep(acc');
    XorFour(a, a', if x then b else 0, if y then b else 0);
    XorZero(a);
    XorZero(a');
    XorZero(b);
    XorComm(0, b);
    XorZero(0);
    XorSelf(b);
    XorZero(Xor(a, a'));
  }

  /** Linear in the coefficients too. */
  lemma {:induction false} HornerSum(acc: bv32, acc': bv32, c: bv32, c': bv32, n: nat, b: bv32)
    ensures Horner(Xor(acc, acc'), Xor(c, c'), n, b) == Xor(Horner(acc, c, n, b), Horner(acc', c', n, b))
    decreases n
  {
    hide HornerStep, Xor, Shr, Odd;
    if n > 0 {
      XorOdd(c, c');
      XorShr(c, c');
      HornerStepSum(acc, acc', Odd(c), Odd(c'), b);
      HornerSum(HornerStep(acc, Odd(c), b), HornerStep(acc', Odd(c'), b), Shr(c), Shr(c'), n - 1, b);
    }
  }

  lemma HornerStepStep(acc: bv32, bit: bool, b: bv32)
    ensures HornerStep(BitStep(acc), bit, BitStep(b)) == BitStep(HornerStep(acc, bit, b))
  {
    hide BitStep, Xor;
    StepLinear(BitStep(acc), b);
  }

  lemma {:induction false} HornerOfStep(acc: bv32, c: bv32, n: nat, b: bv32)
    ensures Horner(BitStep(acc), c, n, BitStep(b)) == BitStep(Horner(acc, c, n, b))
    decreases n
  {
    hide HornerStep, BitStep, Shr, Odd;
    if n > 0 {
      HornerStepStep(acc, Odd(c), b);
      HornerOfStep(HornerStep(acc, Odd(c), b), Shr(c), n - 1, b);
    }
  }

  lemma {:induction false} HornerOfSteps(acc: bv32, c: bv32, n: nat, b: bv32, m: nat)
    ensures Horner(StepN(acc, m), c, n, StepN(b, m)) == StepN(Horner(acc, c, n, b), m)
    decreases m
  {
    hide Horner, BitStep;
    if m > 0 {
      HornerOfSteps(acc, c, n, b, m - 1);
      HornerOfStep(StepN(acc, m - 1), c, n, StepN(b, m - 1));
    }
  }

  lemma {:induction false} HornerSnoc(acc: bv32, c: bv32, n: nat, b: bv32)
    ensures Horner(acc, c, n + 1, b) == HornerStep(Horner(acc, c, n, b), Odd(ShrN(c, n)), b)
    decreases n
  {
    hide HornerStep, Shr, Odd;
    if n > 0 {
      HornerSnoc(HornerStep(acc, Odd(c), b), Shr(c), n - 1, b);
    }
  }

  lemma {:induction false} HornerNoCoefs(acc: bv32, n: nat, b: bv32)
    ensures Horner(acc, 0, n, b) == StepN(acc, n)
    decreases n
  {
    hide BitStep;
    if n > 0 {
      HornerNoCoefs(BitStep(acc), n - 1, b);
      StepsOfStep(acc, n - 1);
    }
  }

  lemma {:induction false} ShrNAdd(c: bv32, a: nat, b: nat)
    ensures ShrN(c, a + b) == ShrN(ShrN(c, a), b)
    decreases a
  {
    hide Shr;
    if a > 0 {
      ShrNAdd(Shr(c), a - 1, b);
    }
  }

  lemma {:induction false} ShrN8(c: bv32)
    ensures ShrN(c, 8) == Shr8(c)
  {
    hide Shr;
    ShiftChain(c);
    var c1, c2, c3, c4, c5, c6, c7 := c >> 1, c >> 2, c >> 3, c >> 4, c >> 5, c >> 6, c >> 7;
    assert ShrN(c7, 1) == Shr(c7);
    assert ShrN(c6, 2) == ShrN(c7, 1);
    assert ShrN(c5, 3) == ShrN(c6, 2);
    assert ShrN(c4, 4) == ShrN(c5, 3);
    assert ShrN(c3, 5) == ShrN(c4, 4);
    assert ShrN(c2, 6) == ShrN(c3, 5);
    assert ShrN(c1, 7) == ShrN(c2, 6);
  }

  lemma {:induction false} ShrN32(c: bv32)
    ensures ShrN(c, 32) == 0
  {
    hide ShrN, Shr8;
    var c1 := Shr8(c);
    var c2 := Shr8(c1);
    var c3 := Shr8(c2);
    ShrN8(c);
    ShrN8(c1);
    ShrN8(c2);
    ShrN8(c3);
    ShrNAdd(c, 8, 24);
    ShrNAdd(c1, 8, 16);
    ShrNAdd(c2, 8, 8);
    ShiftedOut(c);
  }

  // ---- Multiplying by powers of x -------------------------------------------------------------

  lemma OddZero()
    ensures !Odd(0)
  {}

  /** Multiplying an even `c` by x only shifts it. */
  lemma MulShift(c: bv32, b: bv32)
    requires !Odd(c)
    ensures Mul(Shr(c), b) == BitStep(Mul(c, b))
  {
    hide BitStep, Shr, Odd, Xor;
    StepOfZero();
    assert Mul(c, b) == Horner(0, Shr(c), 31, b);
    HornerSnoc(0, Shr(c), 31, b);
    assert ShrN(Shr(c), 31) == ShrN(c, 32);
    ShrN32(c);
    OddZero();
  }

  lemma ShiftedOne()
    ensures Odd(1) && Shr(1) == 0
  {}

  lemma {:induction false} MulOne(b: bv32)
    ensures Mul(1, b) == StepN(b, 31)
  {
    hide BitStep, Shr, Odd, Xor;
    ShiftedOne();
    StepOfZero();
    XorComm(0, b);
    XorZero(b);
    HornerNoCoefs(b, 31, b);
  }

  /** A pending word folded in bit by bit. */
  lemma {:induction false} HornerPending(r: bv32, c: bv32, n: nat)
    ensures Xor(Horner(r, c, n, REFLECTED_POLY), ShrN(c, n)) == StepN(Xor(r, c), n)
    decreases n
  {
    hide BitStep, Shr, Odd, Xor;
    if n > 0 {
      StepPending(r, c);
      PolyStep(r, Odd(c));
      HornerPending(HornerStep(r, Odd(c), REFLECTED_POLY), Shr(c), n - 1);
      StepsAdd(Xor(r, c), 1, n - 1);
      assert StepN(Xor(r, c), 1) == BitStep(StepN(Xor(r, c), 0));
    }
  }

  lemma PolyStep(r: bv32, bit: bool)
    ensures HornerStep(r, bit, REFLECTED_POLY) == SerialStep(r, bit)
  {
    hide BitStep, Xor;
    StepLinear(r, 1);
    assert BitStep(1) == REFLECTED_POLY by { StepOfOneIsPoly(); }
  }

  lemma StepOfOneIsPoly()
    ensures BitStep(1) == REFLECTED_POLY
  {}

  lemma TopSteps()
    ensures StepN(TOP, 32) == REFLECTED_POLY
  {
    hide StepN, Step8, BitStep;
    CrcStandard.Step32OfTop();
    assert BitStep(1) == REFLECTED_POLY by { StepOfOneIsPoly(); }
    var r1 := Step8(TOP);
    var r2 := Step8(r1);
    var r3 := Step8(r2);
    EightSteps(TOP);
    EightSteps(r1);
    EightSteps(r2);
    EightSteps(r3);
    StepsAdd(TOP, 8, 24);
    StepsAdd(r1, 8, 16);
    StepsAdd(r2, 8, 8);
  }

  /** Multiplying by 1 from the right. */
  lemma MulTop(c: bv32)
    ensures Mul(c, TOP) == c
  {
    hide BitStep, Xor, Horner, StepN;
    HornerOfSteps(0, c, 32, TOP, 32);
    StepsOfZero(32);
    TopSteps();
    HornerPending(0, c, 32);
    ShrN32(c);
    XorZero(Horner(0, c, 32, REFLECTED_POLY));
    XorComm(0, c);
    XorZero(c);
    StepsInjective(Mul(c, TOP), c, 32);
  }

  /** The generator itself is zero: x^32 is what the polynomial says it is, on every word. */
  predicate Killed(b: bv32) { Mul(REFLECTED_POLY, b) == StepN(b, 32) }

  lemma KilledStep(b: bv32)
    requires Killed(b)
    ensures Killed(BitStep(b))
  {
    hide BitStep, Horner, StepN;
    StepOfZero();
    HornerOfStep(0, REFLECTED_POLY, 32, b);
    StepsOfStep(b, 32);
  }

  lemma KilledSum(a: bv32, b: bv32)
    requires Killed(a) && Killed(b)
    ensures Killed(Xor(a, b))
  {
    hide Xor, Horner, StepN;
    XorZero(0);
    HornerLinear(0, 0, REFLECTED_POLY, 32, a, b);
    StepsLinear(a, b, 32);
  }

  lemma {:induction false} KilledHorner(acc: bv32, c: bv32, n: nat, b: bv32)
    requires Killed(acc) && Killed(b)
    ensures Killed(Horner(acc, c, n, b))
    decreases n
  {
    hide Killed, BitStep, Xor, Shr, Odd;
    if n > 0 {
      KilledStep(acc);
      KilledSum(BitStep(acc), b);
      KilledHorner(HornerStep(acc, Odd(c), b), Shr(c), n - 1, b);
    }
  }

  lemma {:induction false} KilledZero()
    ensures Killed(0)
  {
    hide Horner, StepN;
    HornerLinear(0, 0, REFLECTED_POLY, 32, 0, 0);
    XorSelf(Horner(0, REFLECTED_POLY, 32, 0));
    XorSelf(0);
    StepsOfZero(32);
  }

  lemma AllKilled(b: bv32)
    ensures Killed(b)
  {
    MulTop(REFLECTED_POLY);
    TopSteps();
    KilledZero();
    MulTop(b);
    hide Horner, StepN;
    KilledHorner(0, b, 32, TOP);
  }

  lemma SplitOdd(c: bv32)
    requires Odd(c)
    ensures c == Xor(c & 0xFFFF_FFFE, 1) && !Odd(c & 0xFFFF_FFFE)
    ensures BitStep(c) == Xor(Shr(c & 0xFFFF_FFFE), REFLECTED_POLY)
  {}

  /** Multiplying `c` by x multiplies the product by x. */
  lemma MulStepLeft(c: bv32, b: bv32)
    ensures Mul(BitStep(c), b) == BitStep(Mul(c, b))
  {
    if Odd(c) {
      var even := c & 0xFFFF_FFFE;
      SplitOdd(c);
      hide BitStep, Shr, Xor, Odd, Horner, StepN;
      XorZero(0);
      HornerSum(0, 0, Shr(even), REFLECTED_POLY, 32, b);
      HornerSum(0, 0, even, 1, 32, b);
      MulShift(even, b);
      AllKilled(b);
      MulOne(b);
      StepLinear(Mul(even, b), Mul(1, b));
      StepsAdd(b, 31, 1);
      LastStep(b);
    } else {
      MulShift(c, b);
      EvenStep(c);
    }
  }

  lemma {:induction false} LastStep(b: bv32)
    ensures StepN(b, 32) == BitStep(StepN(b, 31))
  {}

  lemma {:induction false} MulSteps(c: bv32, m: nat, b: bv32)
    ensures Mul(StepN(c, m), b) == StepN(Mul(c, b), m)
    decreases m
  {
    hide BitStep, Mul;
    if m > 0 {
      MulSteps(c, m - 1, b);
      MulStepLeft(StepN(c, m - 1), b);
    }
  }

  /** Multiplying by 1 from the left: 31 steps on, both sides are x^31 times `b`. */
  lemma MulTopLeft(b: bv32)
    ensures Mul(TOP, b) == b
  {
    hide BitStep, Mul, StepN;
    TopSteps();
    LastStep(TOP);
    StepOfOneIsPoly();
    StepInjective(StepN(TOP, 31), 1);
    MulSteps(TOP, 31, b);
    MulOne(b);
    StepsInjective(Mul(TOP, b), b, 31);
  }

  /** A power of x applied by multiplication is that many steps. */
  lemma {:induction false} MulPower(m: nat, b: bv32)
    ensures Mul(StepN(TOP, m), b) == StepN(b, m)
  {
    hide Mul, StepN;
    MulSteps(TOP, m, b);
    MulTopLeft(b);
  }

  // ---- Products of constants ------------------------------------------------------------------

  /** Eight coefficients of Horner's rule. */
  function Eight(acc: bv32, c: bv32, b: bv32): bv32 {
    var a1 := HornerStep(acc, c & 1 != 0, b);
    var a2 := HornerStep(a1, c & 2 != 0, b);
    var a3 := HornerStep(a2, c & 4 != 0, b);
    var a4 := HornerStep(a3, c & 8 != 0, b);
    var a5 := HornerStep(a4, c & 16 != 0, b);
    var a6 := HornerStep(a5, c & 32 != 0, b);
    var a7 := HornerStep(a6, c & 64 != 0, b);
    HornerStep(a7, c & 128 != 0, b)
  }

  /** The product, in a form that evaluates on constants. */
  function Product(c: bv32, b: bv32): bv32 {
    Eight(Eight(Eight(Eight(0, c, b), Shr8(c), b), Shr8(Shr8(c)), b), Shr8(Shr8(Shr8(c))), b)
  }

  lemma OddBits(c: bv32)
    ensures Odd(c) == (c & 1 != 0) && Odd(c >> 1) == (c & 2 != 0) && Odd(c >> 2) == (c & 4 != 0)
    ensures Odd(c >> 3) == (c & 8 != 0) && Odd(c >> 4) == (c & 16 != 0) && Odd(c >> 5) == (c & 32 != 0)
    ensures Odd(c >> 6) == (c & 64 != 0) && Odd(c >> 7) == (c & 128 != 0)
  {}

  lemma {:induction false} HornerEight(acc: bv32, c: bv32, n: nat, b: bv32)
    ensures Horner(acc, c, n + 8, b) == Horner(Eight(acc, c, b), Shr8(c), n, b)
  {
    hide *;
    var a1, c1 := HornerStep(acc, Odd(c), b), Shr(c);
    var a2, c2 := HornerStep(a1, Odd(c1), b), Shr(c1);
    var a3, c3 := HornerStep(a2, Odd(c2), b), Shr(c2);
    var a4, c4 := HornerStep(a3, Odd(c3), b), Shr(c3);
    var a5, c5 := HornerStep(a4, Odd(c4), b), Shr(c4);
    var a6, c6 := HornerStep(a5, Odd(c5), b), Shr(c5);
    var a7, c7 := HornerStep(a6, Odd(c6), b), Shr(c6);
    HornerFirst(acc, c, n + 7, b);
    HornerFirst(a1, c1, n + 6, b);
    HornerFirst(a2, c2, n + 5, b);
    HornerFirst(a3, c3, n + 4, b);
    HornerFirst(a4, c4, n + 3, b);
    HornerFirst(a5, c5, n + 2, b);
    HornerFirst(a6, c6, n + 1, b);
    HornerFirst(a7, c7, n, b);
    EightParts(acc, c, b);
  }

  lemma {:induction false} HornerFirst(acc: bv32, c: bv32, n: nat, b: bv32)
    ensures Horner(acc, c, n + 1, b) == Horner(HornerStep(acc, Odd(c), b), Shr(c), n, b)
  {
    hide HornerStep, Shr, Odd;
  }

  lemma EightParts(acc: bv32, c: bv32, b: bv32)
    ensures var (a1, c1) := (HornerStep(acc, Odd(c), b), Shr(c));
            var (a2, c2) := (HornerStep(a1, Odd(c1), b), Shr(c1));
            var (a3, c3) := (HornerStep(a2, Odd(c2), b), Shr(c2));
            var (a4, c4) := (HornerStep(a3, Odd(c3), b), Shr(c3));
            var (a5, c5) := (HornerStep(a4, Odd(c4), b), Shr(c4));
            var (a6, c6) := (HornerStep(a5, Odd(c5), b), Shr(c5));
            var (a7, c7) := (HornerStep(a6, Odd(c6), b), Shr(c6));
            Eight(acc, c, b) == HornerStep(a7, Odd(c7), b) && Shr8(c) == Shr(c7)
  {
    hide HornerStep, Shr, Odd;
    OddBits(c);
    ShiftChain(c);
  }

  lemma ProductIsMul(c: bv32, b: bv32)
    ensures Product(c, b) == Mul(c, b)
  {
    hide Eight, Shr8, Horner;
    var c1 := Shr8(c);
    var c2 := Shr8(c1);
    var a1 := Eight(0, c, b);
    var a2 := Eight(a1, c1, b);
    var a3 := Eight(a2, c2, b);
    HornerEight(0, c, 24, b);
    HornerEight(a1, c1, 16, b);
    HornerEight(a2, c2, 8, b);
    HornerEight(a3, Shr8(c2), 0, b);
    EmptyHorner(Eight(a3, Shr8(c2), b), Shr8(Shr8(c2)), b);
  }

  lemma {:induction false} EmptyHorner(acc: bv32, c: bv32, b: bv32)
    ensures Horner(acc, c, 0, b) == acc
  {}

  /** `c` is x to the power `e`. */
  predicate Power(e: nat, c: bv32) { StepN(TOP, e) == c }

  lemma Times(e: nat, c: bv32, f: nat, d: bv32, g: bv32)
    requires Power(e, c) && Power(f, d) && Product(c, d) == g
    ensures Power(e + f, g)
  {
    hide StepN, Product, Mul;
    ProductIsMul(c, d);
    MulPower(e, d);
    StepsAdd(TOP, f, e);
  }

  lemma Doubled(k: nat, c: bv32, d: bv32)
    requires Power(Pow2(k), c) && Product(c, c) == d
    ensures Power(Pow2(k + 1), d)
  {
    hide Power, Product;
    Times(Pow2(k), c, Pow2(k), c, d);
  }

  lemma FirstPowers()
    ensures Power(0, TOP) && Power(1, 0x4000_0000) && Power(Pow2(0), 0x4000_0000)
  {
    assert Pow2(0) == 1;
    assert BitStep(TOP) == 0x4000_0000;
    assert StepN(TOP, 1) == BitStep(StepN(TOP, 0));
  }
}
