/**
  Fixed-width integers in memory: little-endian byte strings, two's complement, and the
  position-based reading that every decoder of the system is built from.
 */
module Bytes {
  import opened Masks

  newtype byte = b: int | 0 <= b < 256

  // ---- Little-endian integers -----------------------------------------------------------------

  function Byte(n: nat): (b: byte)
    ensures b as int == n % 256
  {
    (n % 256) as byte
  }

  function Zeros(n: nat): (r: seq<byte>)
    ensures |r| == n
  {
    seq(n, _ => 0)
  }

  /** The low `width` bytes of `n`, least significant first. */
  function LittleEndian(n: nat, width: nat): (r: seq<byte>)
    ensures |r| == width
    decreases width
  {
    if width == 0 then [] else [Byte(n)] + LittleEndian(n / 256, width - 1)
  }

  /** Byte `i` has the weight 256^i. */
  lemma {:induction false} LittleEndianAt(n: nat, width: nat, i: nat)
    requires i < width
    ensures LittleEndian(n, width)[i] as int == n / Pow2(8 * i) % 256
    decreases width
  {
    if i == 0 {
      Pow2Zero();
    } else {
      LittleEndianAt(n / 256, width - 1, i - 1);
      Pow2Byte(i);
      DivTwice(n, 256, Pow2(8 * (i - 1)));
    }
  }

  lemma DivTwice(n: nat, a: nat, b: nat)
    requires a > 0 && b > 0
    ensures a * b > 0 && n / a / b == n / (a * b)
  {
    var q, r := n / a / b, n / a % b;
    assert n / a == b * q + r;
    assert n == a * (b * q + r) + n % a;
    assert a * (b * q) == (a * b) * q;
    assert a * r + n % a < a * b by { assert a * r <= a * (b - 1); }
    ModUnique(n, a * b, q, a * r + n % a);
  }

  /** The number a little-endian byte string denotes. */
  function Unsigned(b: seq<byte>): (n: nat)
    decreases |b|
  {
    if b == [] then 0 else b[0] as int + 256 * Unsigned(b[1..])
  }

  lemma {:induction false} UnsignedOfLittleEndian(n: nat, width: nat)
    requires n < Pow2(8 * width)
    ensures Unsigned(LittleEndian(n, width)) == n
    decreases width
  {
    if width > 0 {
      Pow2Byte(width);
      UnsignedOfLittleEndian(n / 256, width - 1);
    }
  }

  lemma {:induction false} LittleEndianOfUnsigned(b: seq<byte>)
    ensures Unsigned(b) < Pow2(8 * |b|)
    ensures LittleEndian(Unsigned(b), |b|) == b
    decreases |b|
  {
    if b != [] {
      LittleEndianOfUnsigned(b[1..]);
      Pow2Byte(|b|);
      var n := Unsigned(b);
      assert n % 256 == b[0] as int && n / 256 == Unsigned(b[1..]);
      SameByte(Byte(n), b[0]);
    }
  }

  lemma SameByte(a: byte, b: byte)
    requires a as int == b as int
    ensures a == b
  {}

  /** `uint32_t` in memory. */
  function U32(n: nat): (r: seq<byte>)
    ensures |r| == 4
  {
    LittleEndian(n, 4)
  }

  /** `uint64_t` in memory. */
  function U64(n: nat): (r: seq<byte>)
    ensures |r| == 8
  {
    LittleEndian(n, 8)
  }

  predicate IsInt64(v: int) { -(TWO_63 as int) <= v < TWO_63 }

  /** Two's complement: the 64-bit word that holds a signed value. */
  function Word64(v: int): (n: nat)
    requires IsInt64(v)
    ensures n < TWO_64
  {
    if v < 0 then v + TWO_64 else v
  }

  function Signed64(n: nat): (v: int)
    requires n < TWO_64
    ensures IsInt64(v)
  {
    if n < TWO_63 then n else n - TWO_64
  }

  /** `int64_t` in memory. */
  function I64(v: int): (r: seq<byte>)
    requires IsInt64(v)
    ensures |r| == 8
  {
    U64(Word64(v))
  }

  lemma U32Inverse(n: nat)
    requires n < TWO_32
    ensures Unsigned(U32(n)) == n
  {
    Pow2Values();
    UnsignedOfLittleEndian(n, 4);
  }

  lemma U64Inverse(n: nat)
    requires n < TWO_64
    ensures Unsigned(U64(n)) == n
  {
    Pow2Values();
    UnsignedOfLittleEndian(n, 8);
  }

  lemma {:induction false} U32Of(b: seq<byte>)
    requires |b| == 4
    ensures Unsigned(b) < TWO_32 && U32(Unsigned(b)) == b
  {
    Pow2Values();
    LittleEndianOfUnsigned(b);
  }

  lemma {:induction false} U64Of(b: seq<byte>)
    requires |b| == 8
    ensures Unsigned(b) < TWO_64 && U64(Unsigned(b)) == b
  {
    Pow2Values();
    LittleEndianOfUnsigned(b);
  }

  lemma I64Inverse(v: int)
    requires IsInt64(v)
    ensures Unsigned(I64(v)) == Word64(v) && Signed64(Word64(v)) == v
  {
    U64Inverse(Word64(v));
  }

  lemma {:induction false} I64Of(b: seq<byte>)
    requires |b| == 8
    ensures Unsigned(b) < TWO_64 && I64(Signed64(Unsigned(b))) == b
  {
    hide LittleEndian, Unsigned;
    U64Of(b);
  }

  // ---- Reading at a position ------------------------------------------------------------------

  /** The bytes `part` stand in `data` at offset `off`. */
  predicate At(data: seq<byte>, off: nat, part: seq<byte>) {
    off + |part| <= |data| && data[off..off + |part|] == part
  }

  lemma AtConcat(data: seq<byte>, off: nat, a: seq<byte>, b: seq<byte>)
    ensures At(data, off, a + b) <==> At(data, off, a) && At(data, off + |a|, b)
  {
    if off + |a| + |b| <= |data| {
      assert data[off..off + |a| + |b|] == data[off..off + |a|] + data[off + |a|..off + |a| + |b|];
      if data[off..off + |a| + |b|] == a + b {
        assert data[off..off + |a|] == (a + b)[..|a|] == a;
        assert data[off + |a|..off + |a| + |b|] == (a + b)[|a|..] == b;
      }
    }
  }
}
