/**
  The period of the register: left to itself the preset register is back after the multiples of
  2^32 - 1 steps and never in between. So data that is all zeros, but for absurd lengths, never has
  the checksum zero.
 */
module CrcPeriod {
  import opened Masks
  import opened Bytes
  import opened Crc32
  import opened CrcField
  import opened CrcPowers
  import CrcStandard

  const PERIOD: nat := 0xFFFF_FFFF

  // ---- Returning ------------------------------------------------------------------------------

  /** After `m` steps the preset register is back. */
  predicate Returns(m: nat) { StepN(ALL_ONES, m) == ALL_ONES }

  lemma ReturnsRest(a: nat, b: nat)
    requires Returns(a + b) && Returns(a)
    ensures Returns(b)
  {
    hide StepN;
    StepsAdd(ALL_ONES, a, b);
  }

  lemma {:induction false} ReturnsMultiple(t: nat, m: nat)
    requires Returns(m)
    ensures Returns(t * m)
    decreases t
  {
    hide StepN;
    if t > 0 {
      ReturnsMultiple(t - 1, m);
      StepsAdd(ALL_ONES, (t - 1) * m, m);
      assert t * m == (t - 1) * m + m;
    } else {
      assert StepN(ALL_ONES, 0) == ALL_ONES by { NoStep(ALL_ONES); }
    }
  }

  lemma {:induction false} NoStep(r: bv32)
    ensures StepN(r, 0) == r
  {}

  /** The register does not return after `e` steps, when two powers of x that far apart act differently on it. */
  lemma NoReturn(e: nat, a: nat, b: nat, c: bv32, d: bv32)
    requires a == e + b && Power(a, c) && Power(b, d) && Product(c, ALL_ONES) != Product(d, ALL_ONES)
    ensures !Returns(e)
  {
    hide StepN, Product, Mul;
    ProductIsMul(c, ALL_ONES);
    ProductIsMul(d, ALL_ONES);
    MulPower(a, ALL_ONES);
    MulPower(b, ALL_ONES);
    StepsAdd(ALL_ONES, e, b);
  }

  /** x^(2^32) is x: the register returns after 2^32 - 1 steps. */
  lemma PeriodReturns()
    ensures Returns(PERIOD)
  {
    AllPowers();
    TwoPowers();
    FirstPowers();
    hide Product, Mul, Pow2, StepN;
    PeriodOfOne();
    MulPower(PERIOD, ALL_ONES);
    MulTopLeft(ALL_ONES);
  }

  lemma PeriodOfOne()
    requires Power(PERIOD + 1, 0x4000_0000) && Power(1, 0x4000_0000)
    ensures StepN(TOP, PERIOD) == TOP
  {
    hide StepN;
    StepsAdd(TOP, PERIOD, 1);
    StepsInjective(StepN(TOP, PERIOD), TOP, 1);
  }

  lemma NoReturn65537()
    ensures !Returns(0x0000_FFFF)
  {
    AllPowers();
    TwoPowers();
    FirstPowers();
    hide Power, Pow2, Returns;
    NoReturn(0x0000_FFFF, 0x0001_0000, 0x0000_0001, 0x8385_2D0F, 0x4000_0000);
  }

  lemma NoReturn257()
    ensures !Returns(0x00FF_00FF)
  {
    AllPowers();
    TwoPowers();
    FirstPowers();
    hide Power, Pow2, Returns;
    PowerAhead257Part1();
    PowerBehind257Part1();
    NoReturn(0x00FF_00FF, 0x0100_0100, 0x0001_0001, 0x4630_D51A, 0xAC7A_15A7);
  }

  lemma NoReturn17()
    ensures !Returns(0x0F0F_0F0F)
  {
    AllPowers();
    TwoPowers();
    FirstPowers();
    hide Power, Pow2, Returns;
    PowerAhead17Part1();
    PowerBehind17Part1();
    NoReturn(0x0F0F_0F0F, 0x1010_1010, 0x0101_0101, 0x0C28_3CA0, 0x316B_5BA1);
  }

  lemma NoReturn5()
    ensures !Returns(0x3333_3333)
  {
    AllPowers();
    TwoPowers();
    FirstPowers();
    hide Power, Pow2, Returns;
    PowerAhead5Part1();
    PowerAhead5Part2();
    PowerBehind5Part1();
    PowerBehind5Part2();
    NoReturn(0x3333_3333, 0x4444_4444, 0x1111_1111, 0xBD43_6701, 0x3D43_6701);
  }

  lemma NoReturn3()
    ensures !Returns(0x5555_5555)
  {
    AllPowers();
    TwoPowers();
    FirstPowers();
    hide Power, Pow2, Returns;
    PowerAhead5Part1();
    PowerAhead5Part2();
    PowerBehind5Part1();
    PowerBehind5Part2();
    Power3();
    NoReturn(0x5555_5555, 0x5555_5555, 0x0000_0000, 0xC736_EB52, 0x8000_0000);
  }

  // ---- Every return is a multiple of the period -----------------------------------------------

  function Gcd(a: nat, b: nat): nat
    decreases b
  {
    if b == 0 then a else Gcd(b, a % b)
  }

  lemma DividesSum(d: nat, a: nat, b: nat, t: nat)
    requires d > 0 && a % d == 0 && b % d == 0
    ensures (t * a + b) % d == 0
  {
    var x, y := a / d, b / d;
    assert a == d * x && b == d * y;
    assert t * (d * x) == d * (t * x);
    assert d * (t * x) + d * y == d * (t * x + y);
    ModUnique(t * a + b, d, t * x + y, 0);
  }

  lemma {:induction false} GcdDivides(a: nat, b: nat)
    requires a > 0 || b > 0
    ensures Gcd(a, b) > 0 && a % Gcd(a, b) == 0 && b % Gcd(a, b) == 0
    decreases b
  {
    hide Gcd;
    GcdParts(a, b);
    if b > 0 {
      GcdDivides(b, a % b);
      DividesSum(Gcd(a, b), b, a % b, a / b);
      DivMod(a, b);
    }
  }

  lemma {:induction false} GcdParts(a: nat, b: nat)
    requires a > 0 || b > 0
    ensures b == 0 ==> Gcd(a, b) == a && a % a == 0
    ensures b > 0 ==> Gcd(a, b) == Gcd(b, a % b)
  {}

  lemma DivMod(a: nat, b: nat)
    requires b > 0
    ensures a / b * b + a % b == a
  {}

  lemma ReturnsRemainder(a: nat, b: nat, m: nat)
    requires b > 0 && Returns(a * m) && Returns(b * m)
    ensures Returns(a % b * m)
  {
    hide Returns;
    var t := a / b;
    ReturnsMultiple(t, b * m);
    assert a == t * b + a % b;
    assert t * (b * m) == t * b * m;
    assert (t * b + a % b) * m == t * b * m + a % b * m;
    ReturnsRest(t * (b * m), a % b * m);
  }

  lemma {:induction false} ReturnsGcd(a: nat, b: nat, m: nat)
    requires Returns(a * m) && Returns(b * m)
    ensures Returns(Gcd(a, b) * m)
    decreases b
  {
    hide Returns;
    if b > 0 {
      ReturnsRemainder(a, b, m);
      ReturnsGcd(b, a % b, m);
    }
  }

  predicate Prime(q: nat) {
    q > 1 && forall d :: 1 < d < q ==> q % d != 0
  }

  /** None of sixteen consecutive numbers divides `q`. */
  predicate NoneOf(q: nat, a: nat)
    requires a > 0
  {
    q % a != 0 && q % (a + 1) != 0 && q % (a + 2) != 0 && q % (a + 3) != 0 &&
    q % (a + 4) != 0 && q % (a + 5) != 0 && q % (a + 6) != 0 && q % (a + 7) != 0 &&
    q % (a + 8) != 0 && q % (a + 9) != 0 && q % (a + 10) != 0 && q % (a + 11) != 0 &&
    q % (a + 12) != 0 && q % (a + 13) != 0 && q % (a + 14) != 0 && q % (a + 15) != 0
  }

  lemma InBlock(q: nat, a: nat, d: nat)
    requires a > 0 && NoneOf(q, a) && a <= d <= a + 15
    ensures q % d != 0
  {
    match d - a {
      case 0 =>
      case 1 =>
      case 2 =>
      case 3 =>
      case 4 =>
      case 5 =>
      case 6 =>
      case 7 =>
      case 8 =>
      case 9 =>
      case 10 =>
      case 11 =>
      case 12 =>
      case 13 =>
      case 14 =>
      case _ =>
    }
  }

  lemma Trials()
    ensures NoneOf(65537, 2) && NoneOf(65537, 18) && NoneOf(65537, 34) && NoneOf(65537, 50)
    ensures NoneOf(65537, 66) && NoneOf(65537, 82) && NoneOf(65537, 98) && NoneOf(65537, 114)
    ensures NoneOf(65537, 130) && NoneOf(65537, 146) && NoneOf(65537, 162) && NoneOf(65537, 178)
    ensures NoneOf(65537, 194) && NoneOf(65537, 210) && NoneOf(65537, 226) && NoneOf(65537, 242)
  {}

  lemma Trial(d: nat)
    requires 2 <= d <= 256
    ensures 65537 % d != 0
  {
    Trials();
    hide NoneOf;
    if d < 18 {
      InBlock(65537, 2, d);
    } else if d < 34 {
      InBlock(65537, 18, d);
    } else if d < 50 {
      InBlock(65537, 34, d);
    } else if d < 66 {
      InBlock(65537, 50, d);
    } else if d < 82 {
      InBlock(65537, 66, d);
    } else if d < 98 {
      InBlock(65537, 82, d);
    } else if d < 114 {
      InBlock(65537, 98, d);
    } else if d < 130 {
      InBlock(65537, 114, d);
    } else if d < 146 {
      InBlock(65537, 130, d);
    } else if d < 162 {
      InBlock(65537, 146, d);
    } else if d < 178 {
      InBlock(65537, 162, d);
    } else if d < 194 {
      InBlock(65537, 178, d);
    } else if d < 210 {
      InBlock(65537, 194, d);
    } else if d < 226 {
      InBlock(65537, 210, d);
    } else if d < 242 {
      InBlock(65537, 226, d);
    } else {
      InBlock(65537, 242, d);
    }
  }

  /** Of two factors one is at most the root. */
  lemma SmallFactor(q: nat, d: nat, f: nat, s: nat)
    requires q == d * f && q < (s + 1) * (s + 1)
    ensures d <= s || f <= s
  {
    if d > s && f > s {
      ProductMono(s + 1, d, f);
    }
  }

  lemma ProductMono(s: nat, a: nat, b: nat)
    requires s <= a && s <= b
    ensures s * s <= a * b
  {
    assert a * b - s * s == (a - s) * b + s * (b - s);
  }

  lemma ProperFactor(q: nat, d: nat, f: nat)
    requires q == d * f && 1 < d < q
    ensures 1 < f < q && q % f == 0
  {
    ModUnique(q, f, d, 0);
  }

  /** Trial division up to the root. */
  lemma PrimeByTrial(q: nat, s: nat)
    requires q > 1 && q < (s + 1) * (s + 1) && forall d :: 2 <= d <= s ==> q % d != 0
    ensures Prime(q)
  {
    forall d | 1 < d < q
      ensures q % d != 0
    {
      NoFactor(q, s, d);
    }
  }

  lemma NoFactor(q: nat, s: nat, d: nat)
    requires q > 1 && q < (s + 1) * (s + 1) && 1 < d < q && forall d :: 2 <= d <= s ==> q % d != 0
    ensures q % d != 0
  {
    var f := q / d;
    if q % d == 0 {
      SmallFactor(q, d, f, s);
      ProperFactor(q, d, f);
    }
  }

  /** A prime whose cofactor is no return divides every return. */
  lemma PrimeDivides(q: nat, cofactor: nat, m: nat)
    requires Prime(q) && PERIOD == q * cofactor && Returns(m) && !Returns(cofactor)
    ensures m % q == 0
  {
    hide Returns;
    PeriodReturns();
    ReturnsMultiple(cofactor, m);
    assert cofactor * m == m * cofactor;
    ReturnsGcd(m, q, cofactor);
    GcdDivides(m, q);
    PrimeDivisor(q, Gcd(m, q));
    One(cofactor);
  }

  lemma One(n: nat)
    ensures 1 * n == n
  {}

  lemma PrimeDivisor(q: nat, d: nat)
    requires Prime(q) && d > 0 && q % d == 0
    ensures d == 1 || d == q
  {}

  /** Divisors that differ by a Bezout relation multiply. */
  lemma BothDivide(m: nat, a: nat, b: nat, x: nat, y: nat)
    requires a > 0 && b > 0 && x * a == y * b + 1 && m % a == 0 && m % b == 0
    ensures m % (a * b) == 0
  {
    var i, j := m / a, m / b;
    assert m == a * i && m == b * j;
    MulSwap(x, a, b, j);
    MulSwap(y, b, a, i);
    OneMore(x * a, y * b, m);
    Difference(a * b, x * j, y * i, m);
    ModUnique(m, a * b, x * j - y * i, 0);
  }

  lemma MulSwap(x: nat, a: nat, b: nat, j: nat)
    ensures (x * a) * (b * j) == (a * b) * (x * j)
  {
    assert (x * a) * (b * j) == x * (a * (b * j)) == x * ((a * b) * j) == (a * b) * (x * j);
  }

  lemma OneMore(u: nat, v: nat, m: nat)
    requires u == v + 1
    ensures u * m == v * m + m
  {}

  lemma Difference(p: nat, u: nat, v: nat, m: nat)
    requires p * u == p * v + m
    ensures m == p * (u - v)
  {}

  lemma Primes()
    ensures Prime(3) && Prime(5) && Prime(17) && Prime(257) && Prime(65537)
  {
    hide Prime;
    forall d | 2 <= d <= 256
      ensures 65537 % d != 0
    {
      Trial(d);
    }
    PrimeByTrial(3, 1);
    PrimeByTrial(5, 2);
    PrimeByTrial(17, 4);
    PrimeByTrial(257, 16);
    PrimeByTrial(65537, 256);
  }

  /** The preset register is back exactly after the multiples of 2^32 - 1 steps. */
  lemma ReturnsExactly(m: nat)
    ensures Returns(m) <==> m % PERIOD == 0
  {
    hide Returns, Prime;
    if Returns(m) {
      Primes();
      NoReturn3();
      NoReturn5();
      NoReturn17();
      NoReturn257();
      NoReturn65537();
      PrimeDivides(3, 0x5555_5555, m);
      PrimeDivides(5, 0x3333_3333, m);
      PrimeDivides(17, 0x0F0F_0F0F, m);
      PrimeDivides(257, 0x00FF_00FF, m);
      PrimeDivides(65537, 0x0000_FFFF, m);
      BothDivide(m, 3, 5, 2, 1);
      BothDivide(m, 15, 17, 8, 7);
      BothDivide(m, 255, 257, 128, 127);
      BothDivide(m, 65535, 65537, 32768, 32767);
    }
    if m % PERIOD == 0 {
      PeriodReturns();
      ReturnsMultiple(m / PERIOD, PERIOD);
    }
  }

  // ---- Data that is all zeros -----------------------------------------------------------------

  lemma {:induction false} SerialOfZeros(r: bv32, n: nat)
    ensures Serial(r, CrcStandard.Repeat(false, n)) == StepN(r, n)
    decreases n
  {
    hide BitStep;
    var zeros := CrcStandard.Repeat(false, n);
    if n > 0 {
      assert zeros[1..] == CrcStandard.Repeat(false, n - 1);
      SerialOfZeros(BitStep(r), n - 1);
      StepsOfStep(r, n - 1);
    }
  }

  lemma {:induction false} BitsOfZeros(n: nat)
    ensures Bits(Zeros(n)) == CrcStandard.Repeat(false, 8 * n)
    decreases n
  {
    CrcStandard.ConstantByteBits();
    hide ByteBits;
    if n > 0 {
      assert Zeros(n)[1..] == Zeros(n - 1);
      BitsOfZeros(n - 1);
    }
  }

  lemma EightTimes(n: nat)
    ensures 8 * n % PERIOD == 0 <==> n % PERIOD == 0
  {
    if 8 * n % PERIOD == 0 {
      var t := 8 * n / PERIOD;
      assert 8 * n == PERIOD * t;
      assert n == PERIOD * (0x2000_0000 * t - n);
      ModUnique(n, PERIOD, 0x2000_0000 * t - n, 0);
    }
    if n % PERIOD == 0 {
      var t := n / PERIOD;
      assert n == PERIOD * t;
      ModUnique(8 * n, PERIOD, 8 * t, 0);
    }
  }

  /** Data of `n` zero bytes has the checksum zero if and only if 2^32 - 1 divides `n`. */
  lemma ZeroChecksum(n: nat)
    ensures IeeeCrc(Zeros(n)) == 0 <==> n % PERIOD == 0
  {
    hide StepN, Serial, Xor, Bits, IeeeCrc;
    CrcIsIeee(Zeros(n));
    BitsOfZeros(n);
    SerialOfZeros(ALL_ONES, 8 * n);
    XorEqual(Register(Zeros(n)), ALL_ONES);
    ReturnsExactly(8 * n);
    EightTimes(n);
  }
}
