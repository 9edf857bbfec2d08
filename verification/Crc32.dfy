/**
  CRC-32 of IEEE 802.3, section 3.2.9: the bit-at-a-time definition, the reflected register the
  engine steps eight bits at a time, and the lookup table it precomputes.

  The word operations have names so that the proofs about runs of steps can hide how they are
  computed; only the short lemmas about one operation look inside a 32-bit word.
 */
module Crc32 {
  import opened Bytes

  const REFLECTED_POLY: bv32 := 0xEDB88320
  const GENERATOR: bv32 := 0x04C11DB7
  const ALL_ONES: bv32 := 0xFFFF_FFFF

  // ---- Words ----------------------------------------------------------------------------------

  function Xor(a: bv32, b: bv32): bv32 { a ^ b }

  function Shr(a: bv32): bv32 { a >> 1 }

  function Shl(a: bv32): bv32 { a << 1 }

  function Shr8(a: bv32): bv32 { a >> 8 }

  /** A word and a byte from eight bits, lowest first. */
  function WordOf(a: bool, b: bool, c: bool, d: bool, e: bool, f: bool, g: bool, h: bool): bv32 {
    (if a then 1 else 0) | (if b then 2 else 0) | (if c then 4 else 0) | (if d then 8 else 0) |
    (if e then 16 else 0) | (if f then 32 else 0) | (if g then 64 else 0) | (if h then 128 else 0)
  }

  function ByteOf(a: bool, b: bool, c: bool, d: bool, e: bool, f: bool, g: bool, h: bool): byte {
    var n := Twice(a, Twice(b, Twice(c, Twice(d, Twice(e, Twice(f, Twice(g, Twice(h, 0))))))));
    n as byte
  }

  /** A number from its lowest bit and the rest. */
  function Twice(bit: bool, rest: nat): (n: nat)
    ensures n <= 2 * rest + 1
  {
    2 * rest + if bit then 1 else 0
  }

  predicate IsOdd(n: nat) { n % 2 == 1 }

  function Half(n: nat): nat { n / 2 }

  /** `uint8_t` to `uint32_t`. */
  function ByteWord(b: byte): bv32 {
    var s := ByteBits(b);
    WordOf(s[0], s[1], s[2], s[3], s[4], s[5], s[6], s[7])
  }

  /** `a & 0xFF` as a number. */
  function LowByte(a: bv32): byte {
    ByteOf(a & 1 != 0, a & 2 != 0, a & 4 != 0, a & 8 != 0, a & 16 != 0, a & 32 != 0, a & 64 != 0, a & 128 != 0)
  }

  function Low8(a: bv32): bv32 { a & 0xFF }

  function HighBytes(a: bv32): bv32 { a & 0xFFFF_FF00 }

  predicate Odd(a: bv32) { a & 1 != 0 }

  predicate Top(a: bv32) { a & 0x8000_0000 != 0 }

  /** Bit reversal of a 32-bit word. */
  function Reflect(r: bv32): bv32 {
    var a := ((r >> 1) & 0x5555_5555) | ((r & 0x5555_5555) << 1);
    var b := ((a >> 2) & 0x3333_3333) | ((a & 0x3333_3333) << 2);
    var c := ((b >> 4) & 0x0F0F_0F0F) | ((b & 0x0F0F_0F0F) << 4);
    var d := ((c >> 8) & 0x00FF_00FF) | ((c & 0x00FF_00FF) << 8);
    (d >> 16) | (d << 16)
  }

  lemma TwiceParts(bit: bool, rest: nat)
    ensures IsOdd(Twice(bit, rest)) == bit && Half(Twice(bit, rest)) == rest
  {}

  lemma TwiceOfParts(n: nat)
    ensures Twice(IsOdd(n), Half(n)) == n
  {}

  lemma ByteOfBits(a: bool, b: bool, c: bool, d: bool, e: bool, f: bool, g: bool, h: bool)
    ensures ByteBits(ByteOf(a, b, c, d, e, f, g, h)) == [a, b, c, d, e, f, g, h]
  {
    hide Twice, IsOdd, Half;
    var n7 := Twice(h, 0);
    var n6 := Twice(g, n7);
    var n5 := Twice(f, n6);
    var n4 := Twice(e, n5);
    var n3 := Twice(d, n4);
    var n2 := Twice(c, n3);
    var n1 := Twice(b, n2);
    TwiceParts(h, 0); TwiceParts(g, n7); TwiceParts(f, n6); TwiceParts(e, n5);
    TwiceParts(d, n4); TwiceParts(c, n3); TwiceParts(b, n2); TwiceParts(a, n1);
  }

  lemma SevenHalvings(b: byte)
    ensures Half(Half(Half(Half(Half(Half(Half(Half(b as nat)))))))) == 0
  {}

  lemma BitsOfByte(b: byte)
    ensures var s := ByteBits(b); ByteOf(s[0], s[1], s[2], s[3], s[4], s[5], s[6], s[7]) == b
  {
    SevenHalvings(b);
    hide Twice, IsOdd, Half;
    var n0 := b as nat;
    var n1 := Half(n0);
    var n2 := Half(n1);
    var n3 := Half(n2);
    var n4 := Half(n3);
    var n5 := Half(n4);
    var n6 := Half(n5);
    var n7 := Half(n6);
    TwiceOfParts(n0); TwiceOfParts(n1); TwiceOfParts(n2); TwiceOfParts(n3);
    TwiceOfParts(n4); TwiceOfParts(n5); TwiceOfParts(n6); TwiceOfParts(n7);
  }

  lemma WordOfBits(a: bool, b: bool, c: bool, d: bool, e: bool, f: bool, g: bool, h: bool)
    ensures var w := WordOf(a, b, c, d, e, f, g, h);
            var w1 := Shr(w);
            var w2 := Shr(w1);
            var w3 := Shr(w2);
            var w4 := Shr(w3);
            var w5 := Shr(w4);
            var w6 := Shr(w5);
            var w7 := Shr(w6);
            && Odd(w) == a && Odd(w1) == b && Odd(w2) == c && Odd(w3) == d
            && Odd(w4) == e && Odd(w5) == f && Odd(w6) == g && Odd(w7) == h && Shr(w7) == 0
  {}

  lemma WordOfShort(a: bool, b: bool, c: bool, d: bool, e: bool, f: bool, g: bool, h: bool)
    ensures WordOf(a, b, c, d, e, f, g, h) >> 8 == 0
  {}

  lemma WordOfLow(r: bv32)
    ensures WordOf(r & 1 != 0, r & 2 != 0, r & 4 != 0, r & 8 != 0,
                   r & 16 != 0, r & 32 != 0, r & 64 != 0, r & 128 != 0) == r & 0xFF
  {}

  lemma ByteWordOf(a: bool, b: bool, c: bool, d: bool, e: bool, f: bool, g: bool, h: bool)
    ensures ByteWord(ByteOf(a, b, c, d, e, f, g, h)) == WordOf(a, b, c, d, e, f, g, h)
  {
    hide WordOf, ByteOf, ByteBits;
    ByteOfBits(a, b, c, d, e, f, g, h);
  }

  lemma LowWord(r: bv32)
    ensures ByteWord(LowByte(r)) == Low8(r)
  {
    hide ByteWord, WordOf, ByteOf;
    ByteWordOf(r & 1 != 0, r & 2 != 0, r & 4 != 0, r & 8 != 0, r & 16 != 0, r & 32 != 0, r & 64 != 0, r & 128 != 0);
    WordOfLow(r);
  }

  lemma XorAssoc(a: bv32, b: bv32, c: bv32)
    ensures Xor(a, Xor(b, c)) == Xor(Xor(a, b), c)
  {}

  lemma XorComm(a: bv32, b: bv32)
    ensures Xor(a, b) == Xor(b, a)
  {}

  lemma XorSelf(a: bv32)
    ensures Xor(a, a) == 0
  {}

  lemma XorZero(a: bv32)
    ensures Xor(a, 0) == a
  {}

  lemma XorShr(a: bv32, b: bv32)
    ensures Shr(Xor(a, b)) == Xor(Shr(a), Shr(b))
  {}

  lemma XorOdd(a: bv32, b: bv32)
    ensures Odd(Xor(a, b)) <==> Odd(a) != Odd(b)
  {}

  lemma FlipLow(a: bv32)
    ensures Shr(Xor(a, 1)) == Shr(a)
    ensures Odd(Xor(a, 1)) <==> !Odd(a)
  {}

  lemma ReflectShift(r: bv32)
    ensures Reflect(r << 1) == Reflect(r) >> 1
  {}

  lemma ReflectSubtract(r: bv32)
    ensures Reflect(r ^ 0x04C11DB7) == Reflect(r) ^ 0xEDB88320
  {}

  lemma ReflectShl(r: bv32)
    ensures Reflect(Shl(r)) == Shr(Reflect(r))
  {
    hide Reflect;
    ReflectShift(r);
  }

  lemma ReflectTop(r: bv32)
    ensures Odd(Reflect(r)) <==> Top(r)
  {}

  lemma ReflectGenerator(r: bv32)
    ensures Reflect(Xor(r, GENERATOR)) == Xor(Reflect(r), REFLECTED_POLY)
  {
    hide Reflect;
    ReflectSubtract(r);
  }

  lemma ReflectOnes()
    ensures Reflect(ALL_ONES) == ALL_ONES
  {}

  lemma XorSwap(a: bv32, b: bv32, p: bv32)
    ensures Xor(Xor(a, p), b) == Xor(Xor(a, b), p) == Xor(a, Xor(b, p))
  {
    hide Xor;
    XorAssoc(a, p, b);
    XorComm(p, b);
    XorAssoc(a, b, p);
  }

  lemma XorCancel(a: bv32, b: bv32, p: bv32)
    ensures Xor(Xor(a, p), Xor(b, p)) == Xor(a, b)
  {
    hide Xor;
    XorAssoc(Xor(a, p), b, p);
    XorSwap(a, b, p);
    XorAssoc(Xor(a, b), p, p);
    XorSelf(p);
    XorZero(Xor(a, b));
  }

  // ---- The standard's definition --------------------------------------------------------------

  /** The bits of one byte in transmission order: least significant bit first. */
  function ByteBits(b: byte): (r: seq<bool>)
    ensures |r| == 8
  {
    var n1 := Half(b as nat);
    var n2 := Half(n1);
    var n3 := Half(n2);
    var n4 := Half(n3);
    var n5 := Half(n4);
    var n6 := Half(n5);
    [IsOdd(b as nat), IsOdd(n1), IsOdd(n2), IsOdd(n3), IsOdd(n4), IsOdd(n5), IsOdd(n6), IsOdd(Half(n6))]
  }

  function Bits(data: seq<byte>): (r: seq<bool>)
    ensures |r| == 8 * |data|
  {
    if data == [] then [] else ByteBits(data[0]) + Bits(data[1..])
  }

  /** One step of long division by the generator: bring in a bit, subtract when the quotient bit is 1. */
  function DivideStep(r: bv32, bit: bool): bv32 {
    if Top(r) != bit then Xor(Shl(r), GENERATOR) else Shl(r)
  }

  function Divide(r: bv32, bits: seq<bool>): bv32
    decreases |bits|
  {
    if bits == [] then r else Divide(DivideStep(r, bits[0]), bits[1..])
  }

  /**
    The frame check sequence: long division with a register preset to ones, the remainder
    complemented and sent bit-reversed. `CrcStandard` has it in the standard's own words.
   */
  function IeeeCrc(data: seq<byte>): bv32 {
    Xor(Reflect(Divide(ALL_ONES, Bits(data))), ALL_ONES)
  }

  // ---- The reflected register -----------------------------------------------------------------

  /** The body of the engine's inner table loop. */
  function BitStep(r: bv32): bv32 {
    if Odd(r) then Xor(Shr(r), REFLECTED_POLY) else Shr(r)
  }

  function StepN(r: bv32, n: nat): bv32 {
    if n == 0 then r else BitStep(StepN(r, n - 1))
  }

  /** Shifting one message bit into the reflected register. */
  function SerialStep(r: bv32, bit: bool): bv32 {
    BitStep(if bit then Xor(r, 1) else r)
  }

  function Serial(r: bv32, bits: seq<bool>): bv32
    decreases |bits|
  {
    if bits == [] then r else Serial(SerialStep(r, bits[0]), bits[1..])
  }

  lemma {:induction false} SerialAppend(r: bv32, a: seq<bool>, b: seq<bool>)
    ensures Serial(r, a + b) == Serial(Serial(r, a), b)
    decreases |a|
  {
    hide SerialStep;
    if a == [] {
      assert a + b == b;
    } else {
      assert (a + b)[1..] == a[1..] + b;
      SerialAppend(SerialStep(r, a[0]), a[1..], b);
    }
  }

  lemma {:induction false} BitsAppend(a: seq<byte>, b: seq<byte>)
    ensures Bits(a + b) == Bits(a) + Bits(b)
  {
    hide ByteBits;
    if a == [] {
      assert a + b == b;
    } else {
      assert (a + b)[1..] == a[1..] + b;
      BitsAppend(a[1..], b);
    }
  }

  /** A step of long division, seen in the mirror, is a step of the reflected register. */
  lemma ReflectedStep(r: bv32, bit: bool)
    ensures Reflect(DivideStep(r, bit)) == SerialStep(Reflect(r), bit)
  {
    hide Reflect, Xor, Shl, Shr, Odd, Top;
    ReflectShl(r);
    ReflectTop(r);
    ReflectGenerator(Shl(r));
    FlipLow(Reflect(r));
  }

  lemma {:induction false} SerialIsDivision(r: bv32, bits: seq<bool>)
    ensures Serial(Reflect(r), bits) == Reflect(Divide(r, bits))
    decreases |bits|
  {
    hide Reflect, DivideStep, SerialStep;
    if bits != [] {
      ReflectedStep(r, bits[0]);
      SerialIsDivision(DivideStep(r, bits[0]), bits[1..]);
    }
  }

  // ---- Linearity and invertibility of the step ------------------------------------------------

  lemma StepLinear(a: bv32, b: bv32)
    ensures BitStep(Xor(a, b)) == Xor(BitStep(a), BitStep(b))
  {
    hide Xor, Shr, Odd;
    XorOdd(a, b);
    XorShr(a, b);
    XorCancel(Shr(a), Shr(b), REFLECTED_POLY);
    XorSwap(Shr(a), Shr(b), REFLECTED_POLY);
  }

  /** The top bit of the polynomial tells which branch a step took, so a step can be undone. */
  lemma StepInjective(a: bv32, b: bv32)
    requires BitStep(a) == BitStep(b)
    ensures a == b
  {
    StepUndone(a);
    StepUndone(b);
  }

  function UndoStep(r: bv32): bv32 {
    if Top(r) then Xor(Shl(Xor(r, REFLECTED_POLY)), 1) else Shl(r)
  }

  lemma StepUndone(a: bv32)
    ensures UndoStep(BitStep(a)) == a
  {}

  lemma SerialStepXor(r: bv32, s: bv32, x: bool, y: bool)
    ensures Xor(SerialStep(r, x), SerialStep(s, y)) == SerialStep(Xor(r, s), x != y)
  {
    hide Xor, BitStep;
    var a, b := if x then Xor(r, 1) else r, if y then Xor(s, 1) else s;
    StepLinear(a, b);
    XorCancel(r, s, 1);
    XorSwap(r, s, 1);
  }

  lemma {:induction false} SerialInjective(r: bv32, s: bv32, bits: seq<bool>)
    requires Serial(r, bits) == Serial(s, bits)
    ensures r == s
    decreases |bits|
  {
    hide Xor, BitStep;
    if bits != [] {
      SerialInjective(SerialStep(r, bits[0]), SerialStep(s, bits[0]), bits[1..]);
      if bits[0] {
        StepInjective(Xor(r, 1), Xor(s, 1));
        XorCancel(r, s, 1);
        XorEqual(r, s);
        XorEqual(Xor(r, 1), Xor(s, 1));
      } else {
        StepInjective(r, s);
      }
    }
  }

  lemma XorEqual(a: bv32, b: bv32)
    ensures Xor(a, b) == 0 <==> a == b
  {
    hide Xor;
    XorSelf(b);
    XorSwap(a, b, b);
    XorComm(a, b);
    XorAssoc(a, b, b);
    XorZero(a);
    XorComm(0, b);
    XorZero(b);
  }

  // ---- Eight bits at a time -------------------------------------------------------------------

  function Step8(r: bv32): bv32 {
    BitStep(BitStep(BitStep(BitStep(BitStep(BitStep(BitStep(BitStep(r))))))))
  }

  /** The value the table is meant to hold at index `i`. */
  function TableEntry(i: byte): bv32 {
    Step8(ByteWord(i))
  }

  lemma Step8Linear(a: bv32, b: bv32)
    ensures Step8(Xor(a, b)) == Xor(Step8(a), Step8(b))
  {
    hide Xor, BitStep;
    var a1, b1 := BitStep(a), BitStep(b);
    var a2, b2 := BitStep(a1), BitStep(b1);
    var a3, b3 := BitStep(a2), BitStep(b2);
    var a4, b4 := BitStep(a3), BitStep(b3);
    var a5, b5 := BitStep(a4), BitStep(b4);
    var a6, b6 := BitStep(a5), BitStep(b5);
    var a7, b7 := BitStep(a6), BitStep(b6);
    StepLinear(a, b); StepLinear(a1, b1); StepLinear(a2, b2); StepLinear(a3, b3);
    StepLinear(a4, b4); StepLinear(a5, b5); StepLinear(a6, b6); StepLinear(a7, b7);
  }

  lemma EvenStep(r: bv32)
    requires !Odd(r)
    ensures BitStep(r) == Shr(r)
  {}

  lemma Step8HighBytes(r: bv32)
    requires r & 0xFF == 0
    ensures Step8(r) == r >> 8
  {
    hide BitStep;
    var r1, r2, r3, r4, r5, r6, r7 := r >> 1, r >> 2, r >> 3, r >> 4, r >> 5, r >> 6, r >> 7;
    LowByteClear(r);
    ShiftChain(r);
    EvenStep(r); EvenStep(r1); EvenStep(r2); EvenStep(r3);
    EvenStep(r4); EvenStep(r5); EvenStep(r6); EvenStep(r7);
  }

  lemma LowByteClear(r: bv32)
    requires r & 0xFF == 0
    ensures !Odd(r) && !Odd(r >> 1) && !Odd(r >> 2) && !Odd(r >> 3)
    ensures !Odd(r >> 4) && !Odd(r >> 5) && !Odd(r >> 6) && !Odd(r >> 7)
  {}

  lemma ShiftChain(r: bv32)
    ensures Shr(r) == r >> 1 && Shr(r >> 1) == r >> 2 && Shr(r >> 2) == r >> 3 && Shr(r >> 3) == r >> 4
    ensures Shr(r >> 4) == r >> 5 && Shr(r >> 5) == r >> 6 && Shr(r >> 6) == r >> 7 && Shr(r >> 7) == r >> 8
  {}

  lemma LowHighXor(r: bv32)
    ensures Xor(Low8(r), HighBytes(r)) == r
  {}

  lemma HighBytesShift(r: bv32)
    ensures HighBytes(r) & 0xFF == 0 && HighBytes(r) >> 8 == Shr8(r)
  {}

  lemma SplitLowByte(r: bv32)
    ensures Xor(ByteWord(LowByte(r)), HighBytes(r)) == r
    ensures Step8(HighBytes(r)) == Shr8(r)
  {
    hide Step8, Xor, HighBytes, LowByte, ByteWord, Shr8, Low8;
    LowHighXor(r);
    LowWord(r);
    HighBytesShift(r);
    Step8HighBytes(HighBytes(r));
  }

  /** One table lookup does the work of eight register steps. */
  lemma TableLookup(r: bv32)
    ensures Step8(r) == Xor(TableEntry(LowByte(r)), Shr8(r))
  {
    hide Step8, Xor, LowByte, ByteWord, HighBytes, Shr8;
    SplitLowByte(r);
    Step8Linear(ByteWord(LowByte(r)), HighBytes(r));
  }

  lemma SplitLowBit(c: bv32)
    ensures c == if Odd(c) then Xor(1, c & 0xFFFF_FFFE) else c & 0xFFFF_FFFE
    ensures BitStep(c & 0xFFFF_FFFE) == Shr(c)
  {}

  /** A pending word can be folded into the register before its bits are shifted in. */
  lemma StepPending(r: bv32, c: bv32)
    ensures BitStep(Xor(r, c)) == Xor(SerialStep(r, Odd(c)), Shr(c))
  {
    hide BitStep, Xor, Shr, Odd;
    var rest := c & 0xFFFF_FFFE;
    SplitLowBit(c);
    XorAssoc(r, 1, rest);
    StepLinear(if Odd(c) then Xor(r, 1) else r, rest);
  }

  lemma LowBitsOf(a: bool, b: bool, c: bool, d: bool, e: bool, f: bool, g: bool, h: bool)
    ensures LowBits(WordOf(a, b, c, d, e, f, g, h)) == [a, b, c, d, e, f, g, h]
    ensures Shr(Shr(Shr(Shr(Shr(Shr(Shr(Shr(WordOf(a, b, c, d, e, f, g, h))))))))) == 0
  {
    hide WordOf, Odd, Shr;
    WordOfBits(a, b, c, d, e, f, g, h);
  }

  lemma EightBits(s: seq<bool>)
    requires |s| == 8
    ensures s == [s[0], s[1], s[2], s[3], s[4], s[5], s[6], s[7]]
  {}

  /** The lowest eight bits of a word. */
  function LowBits(c: bv32): seq<bool> {
    var c1 := Shr(c);
    var c2 := Shr(c1);
    var c3 := Shr(c2);
    var c4 := Shr(c3);
    var c5 := Shr(c4);
    var c6 := Shr(c5);
    [Odd(c), Odd(c1), Odd(c2), Odd(c3), Odd(c4), Odd(c5), Odd(c6), Odd(Shr(c6))]
  }

  lemma ByteAsWord(b: byte)
    ensures var c := ByteWord(b);
            ByteBits(b) == LowBits(c) && Shr(Shr(Shr(Shr(Shr(Shr(Shr(Shr(c)))))))) == 0
  {
    hide WordOf, Shr, LowBits, ByteBits;
    var s := ByteBits(b);
    EightBits(s);
    LowBitsOf(s[0], s[1], s[2], s[3], s[4], s[5], s[6], s[7]);
  }

  lemma ByteWordShort(b: byte)
    ensures ByteWord(b) >> 8 == 0
  {
    hide WordOf, ByteBits;
    var s := ByteBits(b);
    WordOfShort(s[0], s[1], s[2], s[3], s[4], s[5], s[6], s[7]);
  }

  lemma {:induction false} SerialFour(r: bv32, a: bool, b: bool, c: bool, d: bool)
    ensures Serial(r, [a, b, c, d]) == SerialStep(SerialStep(SerialStep(SerialStep(r, a), b), c), d)
  {
    hide SerialStep;
    var r1 := SerialStep(r, a);
    var r2 := SerialStep(r1, b);
    var r3 := SerialStep(r2, c);
    assert [a, b, c, d][1..] == [b, c, d];
    assert [b, c, d][1..] == [c, d];
    assert [c, d][1..] == [d];
    assert [d][1..] == [];
    assert Serial(r3, [d]) == SerialStep(r3, d);
    assert Serial(r2, [c, d]) == Serial(r3, [d]);
    assert Serial(r1, [b, c, d]) == Serial(r2, [c, d]);
  }

  lemma {:induction false} SerialEight(r: bv32, a: bool, b: bool, c: bool, d: bool, e: bool, f: bool, g: bool, h: bool)
    ensures Serial(r, [a, b, c, d, e, f, g, h]) ==
            SerialStep(SerialStep(SerialStep(SerialStep(
              SerialStep(SerialStep(SerialStep(SerialStep(r, a), b), c), d), e), f), g), h)
  {
    hide SerialStep;
    assert [a, b, c, d, e, f, g, h] == [a, b, c, d] + [e, f, g, h];
    SerialAppend(r, [a, b, c, d], [e, f, g, h]);
    SerialFour(r, a, b, c, d);
    SerialFour(Serial(r, [a, b, c, d]), e, f, g, h);
  }

  /** Exclusive-or in a byte and step eight times: the same as shifting in its eight bits. */
  lemma {:induction false} SerialByte(r: bv32, b: byte)
    ensures Serial(r, ByteBits(b)) == Step8(Xor(r, ByteWord(b)))
  {
    hide BitStep, SerialStep, Xor, Shr, Odd, ByteWord, ByteBits;
    var c := ByteWord(b);
    ByteAsWord(b);
    var c1 := Shr(c);
    var c2 := Shr(c1);
    var c3 := Shr(c2);
    var c4 := Shr(c3);
    var c5 := Shr(c4);
    var c6 := Shr(c5);
    var c7 := Shr(c6);
    var r1 := SerialStep(r, Odd(c));
    var r2 := SerialStep(r1, Odd(c1));
    var r3 := SerialStep(r2, Odd(c2));
    var r4 := SerialStep(r3, Odd(c3));
    var r5 := SerialStep(r4, Odd(c4));
    var r6 := SerialStep(r5, Odd(c5));
    var r7 := SerialStep(r6, Odd(c6));
    var r8 := SerialStep(r7, Odd(c7));
    StepPending(r, c); StepPending(r1, c1); StepPending(r2, c2); StepPending(r3, c3);
    StepPending(r4, c4); StepPending(r5, c5); StepPending(r6, c6); StepPending(r7, c7);
    XorZero(r8);
    SerialEight(r, Odd(c), Odd(c1), Odd(c2), Odd(c3), Odd(c4), Odd(c5), Odd(c6), Odd(c7));
  }

  // ---- The checksum ---------------------------------------------------------------------------

  /** The register after all bytes of `data`, before the final complement. */
  function Register(data: seq<byte>): bv32 {
    Serial(ALL_ONES, Bits(data))
  }

  function Crc(data: seq<byte>): bv32 {
    Xor(Register(data), ALL_ONES)
  }

  lemma RegisterStep(data: seq<byte>, b: byte)
    ensures Register(data + [b]) == Step8(Xor(Register(data), ByteWord(b)))
  {
    hide Step8, ByteBits, Xor, SerialStep;
    BitsAppend(data, [b]);
    assert Bits([b]) == ByteBits(b) by {
      assert [b][1..] == [];
      assert ByteBits(b) + [] == ByteBits(b);
    }
    SerialAppend(ALL_ONES, Bits(data), ByteBits(b));
    SerialByte(Register(data), b);
  }

  /** The engine's checksum is the standard's, for every byte sequence. */
  lemma CrcIsIeee(data: seq<byte>)
    ensures Crc(data) == IeeeCrc(data)
  {
    hide DivideStep, SerialStep, Xor, Reflect;
    ReflectOnes();
    SerialIsDivision(ALL_ONES, Bits(data));
  }

  lemma {:induction false} EightSteps(r: bv32)
    ensures StepN(r, 8) == Step8(r)
  {
    hide BitStep;
    assert StepN(r, 0) == r;
    assert StepN(r, 1) == BitStep(r);
    assert StepN(r, 2) == BitStep(StepN(r, 1));
    assert StepN(r, 3) == BitStep(StepN(r, 2));
    assert StepN(r, 4) == BitStep(StepN(r, 3));
    assert StepN(r, 5) == BitStep(StepN(r, 4));
    assert StepN(r, 6) == BitStep(StepN(r, 5));
    assert StepN(r, 7) == BitStep(StepN(r, 6));
  }

  lemma LookupShift(r: bv32, c: bv32, t: bv32)
    requires c >> 8 == 0
    ensures t ^ (r >> 8) == Xor(t, Shr8(Xor(r, c)))
  {
    assert (r ^ c) >> 8 == r >> 8;
  }

  /** The file-scope lookup table, filled on first use. */
  class Table {
    const entries: array<bv32>
    var initialized: bool

    ghost predicate Filled(n: nat)
      reads entries
      requires entries.Length == 256
    {
      forall i: byte :: i as int < n ==> entries[i as int] == TableEntry(i)
    }

    ghost predicate Valid()
      reads this, entries
    {
      && entries.Length == 256
      && (initialized ==> Filled(256))
    }

    constructor ()
      ensures Valid() && !initialized && fresh(entries)
    {
      hide Filled;
      entries := new bv32[256](_ => 0);
      initialized := false;
    }

    method InitTable()
      requires Valid()
      modifies this, entries
      ensures Valid() && initialized
    {
      hide Step8, BitStep, TableEntry;
      var i := 0;
      while i < 256
        invariant 0 <= i <= 256
        invariant Filled(i)
      {
        var crc := ComputeEntry(i as byte);
        entries[i] := crc;
        i := i + 1;
      }
      initialized := true;
    }

    /** The inner loop of `init_crc32_table`. */
    static method ComputeEntry(i: byte) returns (crc: bv32)
      ensures crc == TableEntry(i)
    {
      hide Step8;
      crc := ByteWord(i);
      for j := 0 to 8
        invariant crc == StepN(ByteWord(i), j)
      {
        if crc & 1 != 0 {
          crc := (crc >> 1) ^ REFLECTED_POLY;
        } else {
          crc := crc >> 1;
        }
      }
      EightSteps(ByteWord(i));
    }

    /** The body of the loop in `compute_crc32`. */
    function Lookup(crc: bv32, b: byte): (next: bv32)
      reads this, entries
      requires Valid() && initialized
      ensures next == Step8(Xor(crc, ByteWord(b)))
    {
      var entry := entries[LowByte(crc ^ ByteWord(b)) as int];
      LookupStep(crc, b, entry);
      entry ^ (crc >> 8)
    }

    /** `compute_crc32`: the lookup loop yields the checksum of IEEE 802.3. */
    method Compute(data: seq<byte>) returns (crc: bv32)
      requires Valid()
      modifies this, entries
      ensures Valid() && initialized
      ensures crc == IeeeCrc(data)
    {
      hide Step8, Register, IeeeCrc, Xor;
      if !initialized {
        InitTable();
      }
      crc := ALL_ONES;
      var i := 0;
      RegisterEmpty();
      assert data[..0] == [];
      while i < |data|
        invariant 0 <= i <= |data|
        invariant crc == Register(data[..i])
        invariant Valid() && initialized
      {
        assert data[..i + 1] == data[..i] + [data[i]];
        RegisterStep(data[..i], data[i]);
        crc := Lookup(crc, data[i]);
        i := i + 1;
      }
      assert data[..|data|] == data;
      CrcIsIeee(data);
      Complement(crc);
      crc := crc ^ ALL_ONES;
    }
  }

  lemma Complement(r: bv32)
    ensures r ^ ALL_ONES == Xor(r, ALL_ONES)
  {}

  lemma RegisterEmpty()
    ensures Register([]) == ALL_ONES
  {}

  lemma LookupStep(r: bv32, b: byte, t: bv32)
    requires t == TableEntry(LowByte(Xor(r, ByteWord(b))))
    ensures t ^ (r >> 8) == Step8(Xor(r, ByteWord(b)))
  {
    hide Step8, TableEntry, LowByte, Shr8, Xor, ByteWord;
    ByteWordShort(b);
    TableLookup(Xor(r, ByteWord(b)));
    LookupShift(r, ByteWord(b), t);
  }
}
