/**
  The checksum in the words of IEEE 802.3, section 3.2.9: complement the first 32 bits of the data,
  append 32 zero bits, divide by the generator, complement the remainder. A register preset to ones
  that takes each bit in at the high end computes the same.
 */
module CrcStandard {
  import opened Bytes
  import opened Crc32
  import opened CrcBurst

  /** One step of plain long division: the next bit comes in at the low end. */
  function PlainStep(r: bv32, bit: bool): bv32 {
    Xor(if Top(r) then Xor(Shl(r), GENERATOR) else Shl(r), if bit then 1 else 0)
  }

  /** The remainder of `r`, followed by the bits, divided by the generator. */
  function Remainder(r: bv32, bits: seq<bool>): bv32
    decreases |bits|
  {
    if bits == [] then r else Remainder(PlainStep(r, bits[0]), bits[1..])
  }

  function ComplementHead(bits: seq<bool>): (r: seq<bool>)
    requires |bits| >= 32
    ensures |r| == |bits|
  {
    seq(|bits|, i requires 0 <= i < |bits| => if i < 32 then !bits[i] else bits[i])
  }

  function Repeat(bit: bool, n: nat): (r: seq<bool>)
    ensures |r| == n
  {
    seq(n, _ => bit)
  }

  /** The frame check sequence as the standard puts it, sent bit-reversed. */
  function LiteralCrc(data: seq<byte>): bv32
    requires |data| >= 4
  {
    Xor(Reflect(Remainder(0, ComplementHead(Bits(data)) + Repeat(false, 32))), ALL_ONES)
  }

  // ---- The plain division in the mirror -------------------------------------------------------

  /** A step of the plain division on the reflected register. */
  function MirrorStep(r: bv32, bit: bool): bv32 {
    Xor(BitStep(r), if bit then 0x8000_0000 else 0)
  }

  function Mirror(r: bv32, bits: seq<bool>): bv32
    decreases |bits|
  {
    if bits == [] then r else Mirror(MirrorStep(r, bits[0]), bits[1..])
  }

  lemma ReflectFlip(r: bv32)
    ensures Reflect(r ^ 1) == Reflect(r) ^ 0x8000_0000
  {}

  lemma ReflectLow(r: bv32)
    ensures Reflect(Xor(r, 1)) == Xor(Reflect(r), 0x8000_0000)
  {
    hide Reflect;
    ReflectFlip(r);
  }

  lemma MirroredStep(r: bv32, bit: bool)
    ensures Reflect(PlainStep(r, bit)) == MirrorStep(Reflect(r), bit)
  {
    hide Reflect, Xor, BitStep, Top, Shl;
    ReflectedStep(r, false);
    XorZero(DivideStep(r, false));
    XorZero(BitStep(Reflect(r)));
    ReflectLow(DivideStep(r, false));
  }

  lemma {:induction false} MirrorIsDivision(r: bv32, bits: seq<bool>)
    ensures Mirror(Reflect(r), bits) == Reflect(Remainder(r, bits))
    decreases |bits|
  {
    hide Reflect, PlainStep, MirrorStep;
    if bits != [] {
      MirroredStep(r, bits[0]);
      MirrorIsDivision(PlainStep(r, bits[0]), bits[1..]);
    }
  }

  lemma {:induction false} MirrorAppend(r: bv32, a: seq<bool>, b: seq<bool>)
    ensures Mirror(r, a + b) == Mirror(Mirror(r, a), b)
    decreases |a|
  {
    hide MirrorStep;
    if a == [] {
      assert a + b == b;
    } else {
      assert (a + b)[1..] == a[1..] + b;
      MirrorAppend(MirrorStep(r, a[0]), a[1..], b);
    }
  }

  // ---- Thirty-two steps -----------------------------------------------------------------------

  lemma Step32Linear(a: bv32, b: bv32)
    ensures Step32(Xor(a, b)) == Xor(Step32(a), Step32(b))
  {
    hide Xor, Step8;
    var a1, b1 := Step8(a), Step8(b);
    var a2, b2 := Step8(a1), Step8(b1);
    var a3, b3 := Step8(a2), Step8(b2);
    Step8Linear(a, b);
    Step8Linear(a1, b1);
    Step8Linear(a2, b2);
    Step8Linear(a3, b3);
  }

  lemma Step32After(r: bv32)
    ensures Step32(BitStep(r)) == BitStep(Step32(r))
  {
    hide BitStep;
  }

  /** The highest bit takes 32 steps to become the polynomial. */
  lemma Step32OfTop()
    ensures Step32(0x8000_0000) == BitStep(1)
  {
    assert Step8(0x8000_0000) == 0x80_0000;
    assert Step8(0x80_0000) == 0x8000;
    assert Step8(0x8000) == 0x80;
    assert Step8(0x80) == REFLECTED_POLY;
  }

  lemma Step32OfZero()
    ensures Step32(0) == 0
  {
    assert Step8(0) == 0;
  }

  /** A bit taken in at the low end and moved 32 steps up is a bit taken in at the high end. */
  lemma {:induction false} MirrorThenSteps(r: bv32, bits: seq<bool>)
    ensures Step32(Mirror(r, bits)) == Serial(Step32(r), bits)
    decreases |bits|
  {
    hide BitStep, Xor, Step32;
    if bits != [] {
      var next := MirrorStep(r, bits[0]);
      Step32Linear(BitStep(r), if bits[0] then 0x8000_0000 else 0);
      Step32After(r);
      Step32OfTop();
      Step32OfZero();
      XorZero(BitStep(Step32(r)));
      StepLinear(Step32(r), 1);
      MirrorThenSteps(next, bits[1..]);
    }
  }

  // ---- Runs of equal bits ---------------------------------------------------------------------

  lemma ConstantByteBits()
    ensures ByteBits(0) == Repeat(false, 8) && ByteBits(255) == Repeat(true, 8)
  {}

  lemma ConstantWords()
    ensures WordBytes(0) == [0, 0, 0, 0] && WordBytes(ALL_ONES) == [255, 255, 255, 255]
  {}

  lemma ConstantBits()
    ensures Bits(WordBytes(0)) == Repeat(false, 32) && Bits(WordBytes(ALL_ONES)) == Repeat(true, 32)
  {
    ConstantByteBits();
    ConstantWords();
    hide ByteBits, WordBytes;
    BitsOfFour(0, 0, 0, 0);
    BitsOfFour(255, 255, 255, 255);
  }

  lemma {:induction false} MirrorOfZeros(r: bv32, n: nat)
    ensures Mirror(r, Repeat(false, n)) == Serial(r, Repeat(false, n))
    decreases n
  {
    hide BitStep, Xor;
    if n > 0 {
      assert Repeat(false, n)[1..] == Repeat(false, n - 1);
      XorZero(BitStep(r));
      MirrorOfZeros(BitStep(r), n - 1);
    }
  }

  /** Complementing the first 32 bits does what presetting the register does. */
  lemma {:induction false} PresetIsComplement(bits: seq<bool>)
    requires |bits| >= 32
    ensures Serial(0, ComplementHead(bits)) == Serial(ALL_ONES, bits)
  {
    hide Serial, Xor, Step8, WordBytes;
    var flipped := ComplementHead(bits);
    var f, h := flipped[..32], bits[..32];
    assert flipped == f + bits[32..] && bits == h + bits[32..];
    SerialAppend(0, f, bits[32..]);
    SerialAppend(ALL_ONES, h, bits[32..]);
    SerialXor(0, ALL_ONES, f, h);
    assert XorBits(f, h) == Repeat(true, 32);
    ConstantBits();
    SerialWord(ALL_ONES, ALL_ONES);
    XorSelf(ALL_ONES);
    XorComm(0, ALL_ONES);
    XorZero(ALL_ONES);
    Step32OfZero();
    XorEqual(Serial(0, f), Serial(ALL_ONES, h));
  }

  /** The preset register computes the standard's checksum of every data of at least 32 bits. */
  lemma LiteralIsPreset(data: seq<byte>)
    requires |data| >= 4
    ensures LiteralCrc(data) == IeeeCrc(data)
  {
    hide Serial, Mirror, Xor, Step8, WordBytes, Reflect, Remainder, ByteBits, IeeeCrc;
    var bits, zeros := ComplementHead(Bits(data)), Repeat(false, 32);
    assert Reflect(0) == 0 by { ReflectZero(); }
    MirrorIsDivision(0, bits + zeros);
    MirrorAppend(0, bits, zeros);
    MirrorOfZeros(Mirror(0, bits), 32);
    ConstantBits();
    SerialWord(Mirror(0, bits), 0);
    XorZero(Mirror(0, bits));
    MirrorThenSteps(0, bits);
    Step32OfZero();
    PresetIsComplement(Bits(data));
    CrcIsIeee(data);
  }

  lemma ReflectZero()
    ensures Reflect(0) == 0
  {}
}
