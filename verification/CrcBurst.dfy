/**
  Error detection: no burst of 32 bits or fewer, in the data, in the appended checksum or across
  the two, goes unnoticed.
 */
module CrcBurst {
  import opened Bytes
  import opened Crc32

  /** The four bytes a 32-bit word occupies in memory on a little-endian host. */
  function WordBytes(w: bv32): (r: seq<byte>)
    ensures |r| == 4
  {
    [LowByte(w), LowByte(Shr8(w)), LowByte(Shr8(Shr8(w))), LowByte(Shr8(Shr8(Shr8(w))))]
  }

  function Join(a: byte, b: byte, c: byte, d: byte): bv32 {
    JoinOf(ByteWord(a), ByteWord(b), ByteWord(c), ByteWord(d))
  }

  function JoinOf(a: bv32, b: bv32, c: bv32, d: bv32): bv32 {
    a | (b << 8) | (c << 16) | (d << 24)
  }

  /** The word read back from four bytes. */
  function BytesWord(b: seq<byte>): bv32
    requires |b| == 4
  {
    Join(b[0], b[1], b[2], b[3])
  }

  lemma JoinWords(a: bv32, b: bv32, c: bv32, d: bv32)
    requires a <= 0xFF && b <= 0xFF && c <= 0xFF && d <= 0xFF
    ensures var w := JoinOf(a, b, c, d);
            && Low8(w) == a && Low8(Shr8(w)) == b
            && Low8(Shr8(Shr8(w))) == c && Low8(Shr8(Shr8(Shr8(w)))) == d
  {}

  lemma SplitWords(w: bv32)
    ensures w == JoinOf(Low8(w), Low8(Shr8(w)), Low8(Shr8(Shr8(w))), Low8(Shr8(Shr8(Shr8(w)))))
  {}

  lemma SmallWord(b: byte)
    ensures ByteWord(b) <= 0xFF
  {
    hide ByteWord;
    ByteWordShort(b);
  }

  /** A byte is determined by its word. */
  lemma ByteWordInjective(a: byte, b: byte)
    requires ByteWord(a) == ByteWord(b)
    ensures a == b
  {
    hide ByteWord, ByteBits, LowBits, Shr;
    ByteAsWord(a);
    ByteAsWord(b);
    ByteBitsInjective(a, b);
  }

  lemma JoinBytes(a: byte, b: byte, c: byte, d: byte)
    ensures var w := Join(a, b, c, d);
            && LowByte(w) == a && LowByte(Shr8(w)) == b
            && LowByte(Shr8(Shr8(w))) == c && LowByte(Shr8(Shr8(Shr8(w)))) == d
  {
    hide LowByte, Shr8, ByteWord, JoinOf, Low8;
    var w := Join(a, b, c, d);
    SmallWord(a); SmallWord(b); SmallWord(c); SmallWord(d);
    JoinWords(ByteWord(a), ByteWord(b), ByteWord(c), ByteWord(d));
    var w1, w2, w3 := Shr8(w), Shr8(Shr8(w)), Shr8(Shr8(Shr8(w)));
    LowWord(w); LowWord(w1); LowWord(w2); LowWord(w3);
    ByteWordInjective(LowByte(w), a);
    ByteWordInjective(LowByte(w1), b);
    ByteWordInjective(LowByte(w2), c);
    ByteWordInjective(LowByte(w3), d);
  }

  lemma SplitBytes(w: bv32)
    ensures BytesWord(WordBytes(w)) == w
  {
    hide LowByte, Shr8, ByteWord, JoinOf, Low8;
    SplitWords(w);
    LowWord(w); LowWord(Shr8(w)); LowWord(Shr8(Shr8(w))); LowWord(Shr8(Shr8(Shr8(w))));
  }

  lemma WordBytesInverse(b: seq<byte>)
    requires |b| == 4
    ensures WordBytes(BytesWord(b)) == b
  {
    hide LowByte, Shr8, Join;
    JoinBytes(b[0], b[1], b[2], b[3]);
  }

  // ---- Bursts ---------------------------------------------------------------------------------

  /** The two bit strings have equal length and differ at most at positions `at` to `at + width - 1`. */
  predicate SameOutside(a: seq<bool>, b: seq<bool>, at: nat, width: nat) {
    && |a| == |b|
    && forall k :: 0 <= k < |a| && !(at <= k < at + width) ==> a[k] == b[k]
  }

  function XorBits(a: seq<bool>, b: seq<bool>): (r: seq<bool>)
    requires |a| == |b|
    ensures |r| == |a|
  {
    seq(|a|, i requires 0 <= i < |a| => a[i] != b[i])
  }

  lemma {:induction false} SerialXor(r: bv32, s: bv32, a: seq<bool>, b: seq<bool>)
    requires |a| == |b|
    ensures Xor(Serial(r, a), Serial(s, b)) == Serial(Xor(r, s), XorBits(a, b))
    decreases |a|
  {
    hide Xor, SerialStep;
    if a != [] {
      assert XorBits(a, b)[1..] == XorBits(a[1..], b[1..]);
      SerialStepXor(r, s, a[0], b[0]);
      SerialXor(SerialStep(r, a[0]), SerialStep(s, b[0]), a[1..], b[1..]);
    }
  }

  /** Two to the power `k`. */
  function Limit(k: nat): bv32
    requires k <= 31
    decreases 31 - k
  {
    if k == 31 then 0x8000_0000 else Shr(Limit(k + 1))
  }

  predicate Below(a: bv32, l: bv32) { a < l }

  predicate AtMostTop(l: bv32) { l <= 0x8000_0000 }

  lemma {:induction false} LimitBound(k: nat)
    requires k <= 31
    ensures AtMostTop(Limit(k))
    decreases 31 - k
  {
    if k < 31 {
      LimitBound(k + 1);
      ShrShrinks(Limit(k + 1));
    }
  }

  lemma ShrShrinks(a: bv32)
    requires AtMostTop(a)
    ensures AtMostTop(Shr(a))
  {}

  lemma LimitZero()
    ensures Limit(0) == 1
  {
    assert Limit(30) == 0x4000_0000 && Limit(28) == 0x1000_0000 && Limit(26) == 0x0400_0000;
    assert Limit(24) == 0x0100_0000 && Limit(22) == 0x0040_0000 && Limit(20) == 0x0010_0000;
    assert Limit(18) == 0x0004_0000 && Limit(16) == 0x0001_0000 && Limit(14) == 0x4000;
    assert Limit(12) == 0x1000 && Limit(10) == 0x0400 && Limit(8) == 0x0100;
    assert Limit(6) == 0x40 && Limit(4) == 0x10 && Limit(2) == 4;
  }

  lemma ShrBelow(a: bv32, l: bv32)
    requires Below(Shr(a), Shr(l))
    ensures Below(a, l)
  {}

  lemma LowStep(r: bv32, l: bv32)
    requires AtMostTop(l) && Below(BitStep(r), l)
    ensures BitStep(r) == Shr(r)
  {}

  /** A register that dies out within `|bits| <= 31` steps holds at most that many bits. */
  lemma {:induction false} DyingRegister(r: bv32, bits: seq<bool>)
    requires |bits| <= 31 && Serial(r, bits) == 0
    ensures Below(r, Limit(|bits|))
    decreases |bits|
  {
    if bits == [] {
      LimitZero();
    } else {
      hide BitStep, Shr, Xor, Odd, Below, AtMostTop;
      var n := |bits| - 1;
      var x := if bits[0] then Xor(r, 1) else r;
      DyingRegister(SerialStep(r, bits[0]), bits[1..]);
      LimitBound(n);
      LowStep(x, Limit(n));
      FlipLow(r);
      ShrBelow(r, Limit(n + 1));
    }
  }

  lemma StepOfOne(l: bv32)
    requires AtMostTop(l)
    ensures !Below(SerialStep(0, true), l)
    ensures SerialStep(0, false) == 0
  {}

  /** Started from zero, the register stays alive after any non-zero string of at most 32 bits. */
  lemma {:induction false} ShortBurst(bits: seq<bool>)
    requires |bits| <= 32 && Serial(0, bits) == 0
    ensures forall k :: 0 <= k < |bits| ==> !bits[k]
    decreases |bits|
  {
    hide SerialStep, Below, AtMostTop, Shr;
    if bits != [] {
      var n := |bits| - 1;
      DyingRegister(SerialStep(0, bits[0]), bits[1..]);
      LimitBound(n);
      StepOfOne(Limit(n));
      ShortBurst(bits[1..]);
      forall k | 0 <= k < |bits|
        ensures !bits[k]
      {
        if k > 0 {
          assert bits[k] == bits[1..][k - 1];
        }
      }
    }
  }

  lemma {:induction false} ShortStrings(s: bv32, u: seq<bool>, v: seq<bool>)
    requires |u| == |v| <= 32 && Serial(s, u) == Serial(s, v)
    ensures u == v
  {
    hide SerialStep, Xor;
    SerialXor(s, s, u, v);
    XorSelf(s);
    XorSelf(Serial(s, u));
    var e := XorBits(u, v);
    ShortBurst(e);
    forall k | 0 <= k < |u|
      ensures u[k] == v[k]
    {
      assert !e[k];
    }
  }

  lemma {:induction false} SerialInThree(r: bv32, a: seq<bool>, lo: nat, hi: nat)
    requires lo <= hi <= |a|
    ensures Serial(r, a) == Serial(Serial(Serial(r, a[..lo]), a[lo..hi]), a[hi..])
  {
    hide SerialStep, Serial;
    SerialAppend(r, a[..lo], a[lo..hi]);
    assert a[..lo] + a[lo..hi] == a[..hi];
    SerialAppend(r, a[..hi], a[hi..]);
    assert a[..hi] + a[hi..] == a;
  }

  /** The register tells apart any two bit strings that differ only within 32 consecutive positions. */
  lemma {:induction false} BurstDetected(r: bv32, a: seq<bool>, b: seq<bool>, at: nat)
    requires SameOutside(a, b, at, 32)
    requires Serial(r, a) == Serial(r, b)
    ensures a == b
  {
    hide SerialStep, Serial;
    var lo := if at < |a| then at else |a|;
    var hi := if at + 32 < |a| then at + 32 else |a|;
    SerialInThree(r, a, lo, hi);
    SerialInThree(r, b, lo, hi);
    assert a[..lo] == b[..lo];
    assert a[hi..] == b[hi..];
    var s := Serial(r, a[..lo]);
    SerialInjective(Serial(s, a[lo..hi]), Serial(s, b[lo..hi]), a[hi..]);
    ShortStrings(s, a[lo..hi], b[lo..hi]);
    assert a == a[..lo] + a[lo..hi] + a[hi..] == b[..lo] + b[lo..hi] + b[hi..] == b;
  }

  // ---- Bytes ----------------------------------------------------------------------------------

  lemma {:induction false} BitAt(data: seq<byte>, k: nat)
    requires k < 8 * |data|
    ensures Bits(data)[k] == ByteBits(data[k / 8])[k % 8]
    decreases |data|
  {
    hide ByteBits;
    if k >= 8 {
      BitAt(data[1..], k - 8);
      assert (k - 8) / 8 == k / 8 - 1 && (k - 8) % 8 == k % 8;
    }
  }

  lemma ByteBitsInjective(a: byte, b: byte)
    requires ByteBits(a) == ByteBits(b)
    ensures a == b
  {
    hide ByteBits, ByteOf;
    BitsOfByte(a);
    BitsOfByte(b);
  }

  lemma {:induction false} BitsInjective(a: seq<byte>, b: seq<byte>)
    requires Bits(a) == Bits(b)
    ensures a == b
    decreases |a|
  {
    hide ByteBits;
    if a != [] {
      assert Bits(a)[..8] == ByteBits(a[0]) && Bits(a)[8..] == Bits(a[1..]);
      assert Bits(b)[..8] == ByteBits(b[0]) && Bits(b)[8..] == Bits(b[1..]);
      ByteBitsInjective(a[0], b[0]);
      BitsInjective(a[1..], b[1..]);
      assert a == [a[0]] + a[1..] && b == [b[0]] + b[1..];
    }
  }

  /** Two equal-length payloads that differ only within four consecutive bytes have different checksums. */
  lemma FourByteBurst(p: seq<byte>, q: seq<byte>, at: nat)
    requires |p| == |q| && p != q
    requires forall k :: 0 <= k < |p| && !(at <= k < at + 4) ==> p[k] == q[k]
    ensures IeeeCrc(p) != IeeeCrc(q)
  {
    hide Xor, ByteBits, IeeeCrc;
    CrcIsIeee(p);
    CrcIsIeee(q);
    if Crc(p) == Crc(q) {
      XorSelf(ALL_ONES);
      XorZero(Register(p));
      XorZero(Register(q));
      XorAssoc(Register(p), ALL_ONES, ALL_ONES);
      XorAssoc(Register(q), ALL_ONES, ALL_ONES);
      forall k | 0 <= k < 8 * |p| && !(8 * at <= k < 8 * at + 32)
        ensures Bits(p)[k] == Bits(q)[k]
      {
        BitAt(p, k);
        BitAt(q, k);
      }
      BurstDetected(ALL_ONES, Bits(p), Bits(q), 8 * at);
      BitsInjective(p, q);
    }
  }

  // ---- Data followed by its checksum ----------------------------------------------------------

  function Step32(r: bv32): bv32 {
    Step8(Step8(Step8(Step8(r))))
  }

  lemma {:induction false} Step8Pending(r: bv32, c: bv32)
    ensures Step8(Xor(r, c)) == Xor(Serial(r, ByteBits(LowByte(c))), Shr8(c))
  {
    hide Step8, Xor, LowByte, HighBytes, Shr8, ByteBits, SerialStep;
    var low := ByteWord(LowByte(c));
    SplitLowByte(c);
    XorAssoc(r, low, HighBytes(c));
    Step8Linear(Xor(r, low), HighBytes(c));
    SerialByte(r, LowByte(c));
  }

  lemma ShiftedOut(w: bv32)
    ensures Shr8(Shr8(Shr8(Shr8(w)))) == 0
  {}

  lemma BitsOfFour(a: byte, b: byte, c: byte, d: byte)
    ensures Bits([a, b, c, d]) == ByteBits(a) + (ByteBits(b) + (ByteBits(c) + ByteBits(d)))
  {
    hide ByteBits;
    assert [a, b, c, d][1..] == [b, c, d];
    assert [b, c, d][1..] == [c, d];
    assert [c, d][1..] == [d];
    assert [d][1..] == [];
    assert Bits([d]) == ByteBits(d) + [];
    assert Bits([d]) == ByteBits(d);
    assert Bits([c, d]) == ByteBits(c) + Bits([d]);
    assert Bits([b, c, d]) == ByteBits(b) + Bits([c, d]);
  }

  lemma {:induction false} SerialWord(r: bv32, w: bv32)
    ensures Serial(r, Bits(WordBytes(w))) == Step32(Xor(r, w))
  {
    hide Step8, Xor, LowByte, Shr8, ByteBits, SerialStep;
    var w1, w2, w3 := Shr8(w), Shr8(Shr8(w)), Shr8(Shr8(Shr8(w)));
    var b0, b1, b2, b3 := ByteBits(LowByte(w)), ByteBits(LowByte(w1)), ByteBits(LowByte(w2)), ByteBits(LowByte(w3));
    BitsOfFour(LowByte(w), LowByte(w1), LowByte(w2), LowByte(w3));
    var r1 := Serial(r, b0);
    var r2 := Serial(r1, b1);
    var r3 := Serial(r2, b2);
    var r4 := Serial(r3, b3);
    SerialAppend(r, b0, b1 + (b2 + b3));
    SerialAppend(r1, b1, b2 + b3);
    SerialAppend(r2, b2, b3);
    Step8Pending(r, w);
    Step8Pending(r1, w1);
    Step8Pending(r2, w2);
    Step8Pending(r3, w3);
    ShiftedOut(w);
    XorZero(r4);
  }

  /** Data followed by its checksum always leaves the same register. */
  lemma Residue(p: seq<byte>)
    ensures Register(p + WordBytes(Crc(p))) == Step32(ALL_ONES)
  {
    hide Step8, Xor, SerialStep, ByteBits, WordBytes;
    var r := Register(p);
    BitsAppend(p, WordBytes(Crc(p)));
    SerialAppend(ALL_ONES, Bits(p), Bits(WordBytes(Crc(p))));
    SerialWord(r, Crc(p));
    XorAssoc(r, r, ALL_ONES);
    XorSelf(r);
    XorComm(0, ALL_ONES);
    XorZero(ALL_ONES);
  }

  /** Two checksummed strings of one length that differ only within 32 consecutive bits are the same string. */
  lemma {:induction false} CodewordBurst(p: seq<byte>, q: seq<byte>, at: nat)
    requires |p| == |q|
    requires SameOutside(Bits(p + WordBytes(IeeeCrc(p))), Bits(q + WordBytes(IeeeCrc(q))), at, 32)
    ensures p == q
  {
    hide IeeeCrc, WordBytes, Step8, ByteBits, Crc;
    CrcIsIeee(p);
    CrcIsIeee(q);
    var x, y := p + WordBytes(Crc(p)), q + WordBytes(Crc(q));
    Residue(p);
    Residue(q);
    BurstDetected(ALL_ONES, Bits(x), Bits(y), at);
    BitsInjective(x, y);
    assert p == x[..|p|] && q == y[..|q|];
  }
}
