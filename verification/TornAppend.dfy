/**
  Appends cut short: what replay returns when only the first bytes of a frame reached a log with
  zeros behind it, and what it makes of a frame whose header is damaged.

  The checksum covers neither magic nor size, and the checksum of no data is zero. So a magic
  followed by zeros is a whole, empty frame.
 */
module TornAppend {
  import opened Masks
  import opened Bytes
  import opened Crc32
  import opened CrcBurst
  import opened CrcPeriod
  import opened WalFormat
  import opened WalRecovery

  // ---- The checksum of nothing ----------------------------------------------------------------

  lemma CrcOfNothing()
    ensures IeeeCrc([]) == 0
    ensures BytesWord(Zeros(4)) == 0
  {
    CrcIsIeee([]);
    RegisterEmpty();
    XorSelf(ALL_ONES);
    assert Zeros(4) == [0, 0, 0, 0];
    SplitBytes(0);
    assert WordBytes(0) == [0, 0, 0, 0];
  }

  // ---- The first bytes of a frame -------------------------------------------------------------

  /** The first `k` bytes of a frame, with zeros in place of the rest. */
  function Fragment(p: Payload, k: nat): (r: seq<byte>)
    requires k <= |Frame(p)|
    ensures |r| == |Frame(p)|
  {
    Frame(p)[..k] + Zeros(|Frame(p)| - k)
  }

  /** The number the first `j` of four little-endian bytes denote. */
  function LowBytes(n: nat, j: nat): (r: nat)
    ensures r <= n
  {
    ModBound(n, Pow2(8 * j));
    n % Pow2(8 * j)
  }

  lemma {:induction false} UnsignedZeros(n: nat)
    ensures Unsigned(Zeros(n)) == 0
    decreases n
  {
    if n > 0 {
      assert Zeros(n)[1..] == Zeros(n - 1);
      UnsignedZeros(n - 1);
    }
  }

  lemma ModBase(n: nat, q: nat)
    requires q > 0
    ensures n % (256 * q) == 256 * (n / 256 % q) + n % 256
  {
    var a, b := n / 256 / q, n / 256 % q;
    assert n / 256 == q * a + b;
    assert n == 256 * (q * a + b) + n % 256;
    assert 256 * (q * a) == (256 * q) * a;
    ModUnique(n, 256 * q, a, 256 * b + n % 256);
  }

  /** Cutting a little-endian number keeps its low bytes. */
  lemma {:induction false} CutNumber(n: nat, width: nat, j: nat)
    requires j <= width
    ensures Unsigned(LittleEndian(n, width)[..j] + Zeros(width - j)) == LowBytes(n, j)
    decreases j
  {
    var cut := LittleEndian(n, width)[..j] + Zeros(width - j);
    if j == 0 {
      assert cut == Zeros(width);
      UnsignedZeros(width);
    } else {
      Pow2Byte(j);
      ModBase(n, Pow2(8 * (j - 1)));
      CutNumber(n / 256, width - 1, j - 1);
      assert cut[1..] == LittleEndian(n / 256, width - 1)[..j - 1] + Zeros(width - j);
      assert cut[0] == Byte(n);
    }
  }

  /** The size replay reads from a fragment. */
  function TornSize(p: Payload, k: nat): (n: nat)
    ensures n <= |p|
  {
    if k < 4 then 0 else if k < 8 then LowBytes(|p|, k - 4) else |p|
  }

  /** The payload replay reads from a fragment, and the checksum stored with it. */
  function TornPayload(p: Payload, k: nat): (q: Payload)
    requires k <= |Frame(p)|
    ensures |q| == TornSize(p, k)
  {
    Fragment(p, k)[8..8 + TornSize(p, k)]
  }

  function TornChecksum(p: Payload, k: nat): bv32
    requires k <= |Frame(p)|
  {
    BytesWord(Fragment(p, k)[8 + TornSize(p, k)..12 + TornSize(p, k)])
  }

  /** The magic is there, and the checksum stored is that of the payload read. */
  predicate Accepted(p: Payload, k: nat)
    requires k <= |Frame(p)|
  {
    k >= 4 && TornChecksum(p, k) == IeeeCrc(TornPayload(p, k))
  }

  lemma FragmentHeader(p: Payload, k: nat)
    requires |p| <= MAX_PAYLOAD && k <= |Frame(p)|
    ensures k >= 4 ==> Fragment(p, k)[..4] == U32(WAL_MAGIC)
    ensures k < 4 ==> Fragment(p, k)[3] == 0
    ensures k >= 4 ==> Unsigned(Fragment(p, k)[4..8]) == TornSize(p, k)
  {
    hide U32, Checksum, Unsigned;
    var f := Fragment(p, k);
    if 4 <= k < 8 {
      assert f[4..8] == U32(|p|)[..k - 4] + Zeros(8 - k);
      CutSize(|p|, k - 4);
    } else if k >= 8 {
      assert f[4..8] == U32(|p|);
      U32Inverse(|p|);
    }
  }

  lemma CutSize(n: nat, j: nat)
    requires j <= 4
    ensures Unsigned(U32(n)[..j] + Zeros(4 - j)) == LowBytes(n, j)
  {
    CutNumber(n, 4, j);
  }

  lemma PartAt(img: seq<byte>, off: nat, f: seq<byte>, a: nat, b: nat)
    requires At(img, off, f) && a <= b <= |f|
    ensures img[off + a..off + b] == f[a..b]
  {
    forall i | a <= i < b
      ensures img[off + i] == f[i]
    {
      assert img[off + i] == img[off..off + |f|][i];
    }
    assert img[off + a..off + b] == f[a..b];
  }

  lemma MagicFourthByte(img: seq<byte>, off: nat)
    requires MagicAt(img, off)
    ensures img[off + 3] != 0
  {
    U32Of(img[off..off + 4]);
    assert img[off + 3] == U32(WAL_MAGIC)[3];
  }

  /** What one pass of replay makes of a fragment. */
  lemma FragmentRead(img: seq<byte>, off: nat, p: Payload, k: nat)
    requires |p| <= MAX_PAYLOAD && k <= |Frame(p)| && At(img, off, Fragment(p, k))
    ensures HeaderInRange(img, off)
    ensures Accepted(p, k) ==> ReadFrame(img, off) == Found(TornPayload(p, k), off + 12 + TornSize(p, k))
    ensures !Accepted(p, k) ==> NoFrameAt(img, off)
  {
    hide Frame, IeeeCrc, BytesWord, Unsigned, U32, TornSize, Fragment;
    var f := Fragment(p, k);
    FragmentHeader(p, k);
    U32Inverse(WAL_MAGIC);
    if k < 4 {
      assert img[off + 3] == f[3];
      if MagicAt(img, off) {
        MagicFourthByte(img, off);
      }
    } else {
      var n := TornSize(p, k);
      PartAt(img, off, f, 0, 4);
      PartAt(img, off, f, 4, 8);
      PartAt(img, off, f, 8, 8 + n);
      PartAt(img, off, f, 8 + n, 12 + n);
      FrameSizeExact(n);
    }
  }

  // ---- A log with a fragment behind it --------------------------------------------------------

  /** The log, then the first `k` bytes of a frame, then nothing but zeros, with room for the whole frame. */
  predicate TornAt(img: seq<byte>, log: seq<Payload>, p: Payload, k: nat) {
    && AllFit(log) && |p| <= MAX_PAYLOAD && k <= |Frame(p)|
    && At(img, 0, Image(log)) && |Image(log)| + |Frame(p)| <= |img|
    && At(img, |Image(log)|, Frame(p)[..k]) && AllZero(img[|Image(log)| + k..])
  }

  /** What replay returns beyond the log. */
  function Extra(p: Payload, k: nat): seq<Payload>
    requires k <= |Frame(p)|
  {
    if Accepted(p, k) then [TornPayload(p, k)] else []
  }

  lemma {:induction false} TornFragment(img: seq<byte>, log: seq<Payload>, p: Payload, k: nat)
    requires TornAt(img, log, p, k)
    ensures At(img, |Image(log)|, Fragment(p, k))
    ensures k >= 4 ==> AllZero(img[|Image(log)| + 12 + TornSize(p, k)..])
  {
    hide Frame, Image;
    var off, f := |Image(log)|, Fragment(p, k);
    forall i | 0 <= i < |f|
      ensures img[off + i] == f[i]
    {
      if i < k {
        assert img[off + i] == img[off..off + k][i];
      } else {
        assert img[off + i] == img[off + k..][i - k];
      }
    }
    assert img[off..off + |f|] == f;
    var end := off + 12 + TornSize(p, k);
    if k >= 4 {
      assert end >= off + k;
      forall i | 0 <= i < |img[end..]|
        ensures img[end..][i] == 0
      {
        assert img[end..][i] == img[off + k..][end - off - k + i];
      }
    }
  }

  /**
    For every log and payload and every number of bytes that arrived: replay returns the log, and
    beyond it one frame if and only if the magic arrived and the checksum found is that of the
    payload found.
   */
  lemma {:induction false} TornExact(img: seq<byte>, log: seq<Payload>, p: Payload, k: nat)
    requires TornAt(img, log, p, k)
    ensures Scan(img, 0) == Recovered(log + Extra(p, k), |Image(log + Extra(p, k))|, true)
  {
    hide Frame, Image, Scan, ReadFrame, At, TornPayload, Accepted, NoFrameAt;
    var off := |Image(log)|;
    TornFragment(img, log, p, k);
    FragmentRead(img, off, p, k);
    if Accepted(p, k) {
      var q := TornPayload(p, k);
      WrittenRead(img, off);
      MagicArrived(p, k);
      ZerosAreNoFrame(img, off + 12 + |q|);
      ImageSnoc(log, q);
      CompletedAppend(img, log, q);
    } else {
      assert log + [] == log;
      TornWrite(img, log);
    }
  }

  lemma MagicArrived(p: Payload, k: nat)
    requires k <= |Frame(p)| && Accepted(p, k)
    ensures k >= 4
  {}

  // ---- Which fragments are accepted -----------------------------------------------------------

  /** Exactly the fragments with the magic and no set bit in the size are read as an empty frame. */
  lemma EmptyFrame(p: Payload, k: nat)
    requires |p| <= MAX_PAYLOAD && k <= |Frame(p)|
    ensures Extra(p, k) == [[]] <==> k >= 4 && TornSize(p, k) == 0
  {
    hide IeeeCrc, BytesWord, U32, Checksum;
    if k >= 4 && TornSize(p, k) == 0 {
      CrcOfNothing();
      if k <= 8 {
        assert Fragment(p, k)[8..12] == Zeros(4);
      } else {
        hide Frame;
        EmptyPayload(p, k);
      }
      assert TornPayload(p, k) == [];
    }
  }

  lemma EmptyPayload(p: Payload, k: nat)
    requires p == [] && 8 <= k <= |Frame(p)|
    ensures Fragment(p, k)[8..12] == Zeros(4)
  {
    CrcOfNothing();
    hide IeeeCrc, U32;
    assert WordBytes(0) == Zeros(4);
    assert Frame(p)[8..12] == Zeros(4);
    forall i | 8 <= i < 12
      ensures Fragment(p, k)[i] == 0
    {
      assert Frame(p)[i] == Frame(p)[8..12][i - 8];
    }
  }

  /**
    Up to the header: the data and the checksum read are zeros, as many as the size bytes that
    arrived say, and such data has that checksum only when there is none.
   */
  lemma HeaderTorn(p: Payload, k: nat)
    requires |p| <= MAX_PAYLOAD && 4 <= k <= 8
    ensures TornPayload(p, k) == Zeros(TornSize(p, k))
    ensures Accepted(p, k) <==> TornSize(p, k) == 0
  {
    hide IeeeCrc, BytesWord, U32, Checksum, TornSize;
    var n := TornSize(p, k);
    ZeroSlice(p, k, 8, 8 + n);
    ZeroSlice(p, k, 8 + n, 12 + n);
    CrcOfNothing();
    ZeroChecksum(n);
    BelowPeriod(n);
  }

  /** Behind the header nothing but zeros arrived. */
  lemma ZeroSlice(p: Payload, k: nat, lo: nat, hi: nat)
    requires k <= 8 <= lo <= hi <= |Fragment(p, k)|
    ensures Fragment(p, k)[lo..hi] == Zeros(hi - lo)
  {
    hide Frame;
    forall i | lo <= i < hi
      ensures Fragment(p, k)[i] == 0
    {}
  }

  lemma BelowPeriod(n: nat)
    requires n <= MAX_PAYLOAD
    ensures n % PERIOD == 0 <==> n == 0
  {
    ModUnique(n, PERIOD, 0, n);
  }

  /** Within the data: what arrived of it is read with zeros behind it, against a checksum of zero. */
  lemma DataTorn(p: Payload, k: nat)
    requires |p| <= MAX_PAYLOAD && 8 <= k <= 8 + |p|
    ensures TornPayload(p, k) == p[..k - 8] + Zeros(8 + |p| - k)
    ensures Accepted(p, k) <==> IeeeCrc(p[..k - 8] + Zeros(8 + |p| - k)) == 0
  {
    hide IeeeCrc, BytesWord, U32, Checksum;
    assert TornPayload(p, k) == p[..k - 8] + Zeros(8 + |p| - k);
    assert Fragment(p, k)[8 + |p|..12 + |p|] == Zeros(4);
    CrcOfNothing();
  }

  /** Within the checksum: the payload is read whole, and accepted exactly if nothing but zeros is missing. */
  lemma ChecksumTorn(p: Payload, k: nat)
    requires |p| <= MAX_PAYLOAD && 8 + |p| <= k <= |Frame(p)|
    ensures TornPayload(p, k) == p
    ensures Accepted(p, k) <==> Fragment(p, k) == Frame(p)
  {
    hide IeeeCrc, BytesWord, U32, WordBytes, Frame, Fragment;
    var f, n := Fragment(p, k), |p|;
    DataArrived(p, k);
    SplitBytes(IeeeCrc(p));
    WordBytesInverse(f[8 + n..12 + n]);
    assert f == f[..8 + n] + f[8 + n..12 + n];
    assert Frame(p) == Frame(p)[..8 + n] + Frame(p)[8 + n..12 + n];
  }

  /** All but the checksum is there. */
  lemma DataArrived(p: Payload, k: nat)
    requires 8 + |p| <= k <= |Frame(p)|
    ensures Fragment(p, k)[8..8 + |p|] == p
    ensures Fragment(p, k)[..8 + |p|] == Frame(p)[..8 + |p|]
    ensures Frame(p)[8 + |p|..12 + |p|] == Checksum(p)
  {
    hide Checksum, U32;
  }

  /** Beyond the log replay returns nothing, or the payload being appended. */
  predicate Harmless(p: Payload, k: nat)
    requires k <= |Frame(p)|
  {
    Extra(p, k) == [] || Extra(p, k) == [p]
  }

  /**
    Harm is done exactly here: with the magic there, when no set bit of the size has arrived; and
    with the size there, when the data that arrived, zeros behind it, has the checksum zero and is
    not the payload.
   */
  lemma HarmlessExactly(p: Payload, k: nat)
    requires |p| <= MAX_PAYLOAD && k <= |Frame(p)|
    ensures Harmless(p, k) <==>
              if k < 4 then true
              else if k <= 8 then TornSize(p, k) > 0 || p == []
              else if k < 8 + |p| then
                var q := p[..k - 8] + Zeros(8 + |p| - k);
                IeeeCrc(q) != 0 || q == p
              else true
  {
    hide Frame, IeeeCrc, BytesWord, TornPayload, TornChecksum, TornSize, Fragment;
    if 4 <= k <= 8 {
      HeaderTorn(p, k);
      EmptyFrame(p, k);
    }
    if 8 <= k <= 8 + |p| {
      DataTorn(p, k);
    }
    if k >= 8 + |p| {
      ChecksumTorn(p, k);
    }
  }

  /** Writing the first `k` bytes of a frame behind a clean log leaves such an image. */
  lemma {:induction false} TornByAppend(w: WalState, log: seq<Payload>, p: Payload, k: nat)
    requires Clean(w, log) && |p| <= MAX_PAYLOAD && k <= |Frame(p)| && w.offset + |Frame(p)| <= |w.image|
    ensures TornAt(Overwrite(w.image, w.offset, Frame(p)[..k]), log, p, k)
  {
    hide Frame, Image;
    var part := Frame(p)[..k];
    var img := Overwrite(w.image, w.offset, part);
    OverwriteParts(w.image, w.offset, part);
    assert img[0..w.offset] == Image(log);
    assert img[w.offset..w.offset + k] == part;
    assert img[w.offset + k..] == w.image[w.offset..][k..];
  }

  lemma MagicFirst(p: Payload)
    ensures Frame(p)[..4] == U32(WAL_MAGIC)
  {
    hide U32, Checksum;
  }

  /** The first copy of an append alone makes replay return an empty payload that was never appended. */
  lemma {:induction false} MagicAlone(w: WalState, log: seq<Payload>)
    requires Clean(w, log) && w.offset + 12 <= |w.image|
    ensures Scan(Overwrite(w.image, w.offset, U32(WAL_MAGIC)), 0) == Recovered(log + [[]], w.offset + 12, true)
  {
    hide *;
    EndOfClean(w, log);
    MagicFirst([]);
    TornByAppend(w, log, [], 4);
    TornExact(Overwrite(w.image, w.offset, Frame([])[..4]), log, [], 4);
    NoSizeYet([]);
    EmptyFrame([], 4);
    ImageSnoc(log, []);
  }

  lemma NoSizeYet(p: Payload)
    ensures TornSize(p, 4) == 0
  {
    assert Pow2(0) == 1;
  }

  lemma {:induction false} EndOfClean(w: WalState, log: seq<Payload>)
    requires Clean(w, log)
    ensures w.offset == |Image(log)| && |Frame([])| == 12
  {}

  // ---- Damaged headers ------------------------------------------------------------------------

  /** The frames before it, and then a frame whose eight header bytes have become `h`. */
  predicate HeaderDamaged(img: seq<byte>, before: seq<Payload>, p: Payload, h: seq<byte>) {
    && AllFit(before) && At(img, 0, Image(before))
    && |h| == 8 && At(img, |Image(before)|, h + (p + Checksum(p)))
    && Unsigned(h[4..8]) <= MAX_PAYLOAD
  }

  /** The checksum over as many bytes as the damaged size says is the one that follows them. */
  predicate ChecksumHolds(img: seq<byte>, off: nat, n: nat) {
    && off + 12 + n <= |img|
    && IeeeCrc(img[off + 8..off + 8 + n]) == BytesWord(img[off + 8 + n..off + 12 + n])
  }

  /**
    Replay stops at a frame with a damaged header if and only if the magic has changed, or the size
    now leads out of the mapping, or to bytes whose checksum does not follow them.
   */
  lemma {:induction false} DamagedHeader(img: seq<byte>, before: seq<Payload>, p: Payload, h: seq<byte>)
    requires HeaderDamaged(img, before, p, h)
    ensures Scan(img, 0) == Recovered(before, |Image(before)|, true) <==>
            h[..4] != U32(WAL_MAGIC) || !ChecksumHolds(img, |Image(before)|, Unsigned(h[4..8]))
  {
    hide IeeeCrc, BytesWord, U32, Image, Scan, Checksum, Unsigned;
    var off := |Image(before)|;
    AtConcat(img, off, h, p + Checksum(p));
    PartAt(img, off, h, 0, 4);
    PartAt(img, off, h, 4, 8);
    U32Inverse(WAL_MAGIC);
    U32Of(h[..4]);
    FrameSizeExactIn(h);
    TornWrite(img, before);
  }

  lemma FrameSizeExactIn(h: seq<byte>)
    requires |h| == 8 && Unsigned(h[4..8]) <= MAX_PAYLOAD
    ensures FrameSize32(Unsigned(h[4..8])) == Unsigned(h[4..8]) + 12
  {
    FrameSizeExact(Unsigned(h[4..8]));
  }

  /** A changed magic always stops replay. */
  lemma {:induction false} DamagedMagic(img: seq<byte>, before: seq<Payload>, p: Payload, h: seq<byte>)
    requires HeaderDamaged(img, before, p, h) && h[..4] != U32(WAL_MAGIC)
    ensures Scan(img, 0) == Recovered(before, |Image(before)|, true)
  {
    hide *;
    DamagedHeader(img, before, p, h);
  }

  /**
    A size damaged to zero, a burst of 32 bits, stops replay if and only if the four bytes behind the
    header are not all zero; otherwise an empty payload comes back in the frame's place.
   */
  lemma {:induction false} ZeroedSize(img: seq<byte>, before: seq<Payload>, p: Payload)
    requires HeaderDamaged(img, before, p, U32(WAL_MAGIC) + Zeros(4))
    ensures Scan(img, 0) == Recovered(before, |Image(before)|, true) <==> (p + Checksum(p))[..4] != Zeros(4)
    ensures (p + Checksum(p))[..4] == Zeros(4) ==> before + [[]] <= Scan(img, 0).frames
  {
    hide IeeeCrc, BytesWord, U32, Image, Scan, Checksum, Unsigned;
    var off, h := |Image(before)|, U32(WAL_MAGIC) + Zeros(4);
    assert h[..4] == U32(WAL_MAGIC) && h[4..8] == Zeros(4);
    UnsignedZeros(4);
    DamagedHeader(img, before, p, h);
    AtConcat(img, off, h, p + Checksum(p));
    PartAt(img, off + 8, p + Checksum(p), 0, 4);
    assert img[off + 8..off + 8] == [];
    CrcOfNothing();
    ZeroWord((p + Checksum(p))[..4]);
    if (p + Checksum(p))[..4] == Zeros(4) {
      EmptyFrameAt(img, off);
      ImageSnoc(before, []);
      AtConcat(img, 0, Image(before), Frame([]));
      hide Frame, At;
      TornWrite(img, before + [[]]);
    }
  }

  lemma ZeroWord(b: seq<byte>)
    requires |b| == 4
    ensures BytesWord(b) == 0 <==> b == Zeros(4)
  {
    hide IeeeCrc, BytesWord, WordBytes;
    CrcOfNothing();
    WordBytesInverse(b);
    WordBytesInverse(Zeros(4));
  }

  lemma EmptyFrameAt(img: seq<byte>, off: nat)
    requires At(img, off, U32(WAL_MAGIC) + Zeros(4)) && At(img, off + 8, Zeros(4))
    ensures At(img, off, Frame([]))
  {
    hide IeeeCrc, BytesWord, WordBytes;
    CrcOfNothing();
    WordBytesInverse(Zeros(4));
    assert U32(0) == Zeros(4) by { ZeroSize(); }
    assert Checksum([]) == Zeros(4);
    assert Frame([]) == (U32(WAL_MAGIC) + Zeros(4)) + Zeros(4);
    AtConcat(img, off, U32(WAL_MAGIC) + Zeros(4), Zeros(4));
  }

  lemma ZeroSize()
    ensures U32(0) == Zeros(4)
  {
    assert LittleEndian(0, 1) == [0];
    assert LittleEndian(0, 2) == [0, 0];
    assert LittleEndian(0, 3) == [0, 0, 0];
    assert LittleEndian(0, 4) == [0, 0, 0, 0];
  }
}
