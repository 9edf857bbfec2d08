/**
  The write-ahead log as bytes: the frame format, the scan that recovers frames from an image, and
  the exact relation between the two.
 */
module WalFormat {
  import opened Masks
  import opened Bytes
  import Crc32
  import opened CrcBurst

  type Payload = seq<byte>

  const WAL_MAGIC: nat := 0xDEAD1E7C

  /** The largest payload whose frame size does not wrap around in 32-bit arithmetic. */
  const MAX_PAYLOAD: nat := TWO_32 - 13

  function Checksum(p: Payload): (r: seq<byte>)
    ensures |r| == 4
  {
    WordBytes(Crc32.IeeeCrc(p))
  }

  /** [magic][size][data][crc32] */
  function Frame(p: Payload): (r: seq<byte>)
    ensures |r| == |p| + 12
  {
    U32(WAL_MAGIC) + (U32(|p|) + (p + Checksum(p)))
  }

  function Image(log: seq<Payload>): (r: seq<byte>)
    ensures |r| >= 12 * |log|
    decreases |log|
  {
    if log == [] then [] else Frame(log[0]) + Image(log[1..])
  }

  predicate AllFit(log: seq<Payload>) {
    forall i :: 0 <= i < |log| ==> |log[i]| <= MAX_PAYLOAD
  }

  // ---- The scan -------------------------------------------------------------------------------

  datatype Outcome =
    | Stop                                      // no further valid frame here
    | Found(payload: Payload, next: nat)
    | OutOfRange                                // the checksum would be read outside the mapping

  /** `4 + 4 + data_size + 4` with a 32-bit unsigned operand. */
  function FrameSize32(n: nat): nat {
    (n + 12) % TWO_32
  }

  predicate MagicAt(img: seq<byte>, off: nat) {
    off + 12 <= |img| && Unsigned(img[off..off + 4]) == WAL_MAGIC
  }

  function SizeAt(img: seq<byte>, off: nat): nat
    requires off + 12 <= |img|
  {
    Unsigned(img[off + 4..off + 8])
  }

  /** One pass of the loop in `replay`. */
  function ReadFrame(img: seq<byte>, off: nat): Outcome {
    if !MagicAt(img, off) then Stop
    else
      var n := SizeAt(img, off);
      if off + FrameSize32(n) > |img| then Stop
      else if off + 12 + n > |img| then OutOfRange
      else if BytesWord(img[off + 8 + n..off + 12 + n]) != Crc32.IeeeCrc(img[off + 8..off + 8 + n]) then Stop
      else Found(img[off + 8..off + 8 + n], off + FrameSize32(n))
  }

  /** The size field of a frame header at `off`, if there is one, leaves the 32-bit frame size exact. */
  predicate HeaderInRange(img: seq<byte>, off: nat) {
    MagicAt(img, off) ==> SizeAt(img, off) <= MAX_PAYLOAD
  }

  datatype Recovered = Recovered(frames: seq<Payload>, end: nat, inRange: bool)

  /** The frames from `off` on, where scanning stops, and whether every header met was in range. */
  function Scan(img: seq<byte>, off: nat): (r: Recovered)
    ensures r.end >= off
    decreases if off <= |img| then |img| - off else 0
  {
    if !HeaderInRange(img, off) then Recovered([], off, false)
    else
      match ReadFrame(img, off)
      case Found(p, next) =>
        FrameAdvances(img, off);
        var rest := Scan(img, next);
        Recovered([p] + rest.frames, rest.end, rest.inRange)
      case _ => Recovered([], off, true)
  }

  /** The 32-bit frame size is the real one exactly up to the payload bound. */
  lemma FrameSizeExact(n: nat)
    requires n < TWO_32
    ensures FrameSize32(n) == n + 12 <==> n <= MAX_PAYLOAD
  {}

  /** Each step of the scan consumes at least 12 bytes and stays inside the mapping. */
  lemma FrameAdvances(img: seq<byte>, off: nat)
    requires HeaderInRange(img, off)
    ensures !ReadFrame(img, off).OutOfRange?
    ensures ReadFrame(img, off).Found? ==> off + 12 <= ReadFrame(img, off).next <= |img|
  {
    if MagicAt(img, off) {
      U32Of(img[off + 4..off + 8]);
      FrameSizeExact(SizeAt(img, off));
    }
  }

  // ---- One frame ------------------------------------------------------------------------------

  lemma FrameParts(img: seq<byte>, off: nat, p: Payload)
    ensures At(img, off, Frame(p)) <==>
            && At(img, off, U32(WAL_MAGIC)) && At(img, off + 4, U32(|p|))
            && At(img, off + 8, p) && At(img, off + 8 + |p|, Checksum(p))
  {
    hide At, U32, Checksum;
    AtConcat(img, off, U32(WAL_MAGIC), U32(|p|) + (p + Checksum(p)));
    AtConcat(img, off + 4, U32(|p|), p + Checksum(p));
    AtConcat(img, off + 8, p, Checksum(p));
  }

  /** A frame written is a frame read. */
  lemma ReadWritten(img: seq<byte>, off: nat, p: Payload)
    requires |p| <= MAX_PAYLOAD && At(img, off, Frame(p))
    ensures HeaderInRange(img, off)
    ensures ReadFrame(img, off) == Found(p, off + 12 + |p|)
  {
    hide Crc32.IeeeCrc, WordBytes, U32, Unsigned, BytesWord;
    FrameParts(img, off, p);
    U32Inverse(WAL_MAGIC);
    U32Inverse(|p|);
    SplitBytes(Crc32.IeeeCrc(p));
    FrameSizeExact(|p|);
  }

  /** A frame read was written: the bytes there are the encoding of the payload returned. */
  lemma WrittenRead(img: seq<byte>, off: nat)
    requires HeaderInRange(img, off) && ReadFrame(img, off).Found?
    ensures var p := ReadFrame(img, off).payload;
            |p| <= MAX_PAYLOAD && At(img, off, Frame(p)) && ReadFrame(img, off).next == off + 12 + |p|
  {
    hide Crc32.IeeeCrc, WordBytes, U32, Unsigned, BytesWord;
    var n := SizeAt(img, off);
    FrameSizeExactAt(img, off);
    U32Of(img[off..off + 4]);
    U32Of(img[off + 4..off + 8]);
    WordBytesInverse(img[off + 8 + n..off + 12 + n]);
    FrameParts(img, off, ReadFrame(img, off).payload);
  }

  lemma FrameSizeExactAt(img: seq<byte>, off: nat)
    requires MagicAt(img, off) && SizeAt(img, off) <= MAX_PAYLOAD
    ensures FrameSize32(SizeAt(img, off)) == SizeAt(img, off) + 12
  {
    FrameSizeExact(SizeAt(img, off));
  }

  /** The bytes of a frame: magic and size lowest byte first, the data, and its checksum. */
  lemma FrameBytes(p: Payload)
    requires |p| < TWO_32
    ensures Frame(p)[..4] == [0x7C, 0x1E, 0xAD, 0xDE]
    ensures Unsigned(Frame(p)[4..8]) == |p|
    ensures Frame(p)[8..8 + |p|] == p
    ensures BytesWord(Frame(p)[8 + |p|..]) == Crc32.IeeeCrc(p)
  {
    hide Crc32.IeeeCrc, WordBytes, BytesWord;
    MagicBytes();
    U32Inverse(|p|);
    SplitBytes(Crc32.IeeeCrc(p));
    hide U32;
    assert Frame(p)[..4] == U32(WAL_MAGIC);
    assert Frame(p)[4..8] == U32(|p|);
    assert Frame(p)[8 + |p|..] == Checksum(p);
  }

  lemma MagicBytes()
    ensures U32(WAL_MAGIC) == [0x7C, 0x1E, 0xAD, 0xDE]
  {
    LittleEndianAt(WAL_MAGIC, 4, 0);
    LittleEndianAt(WAL_MAGIC, 4, 1);
    LittleEndianAt(WAL_MAGIC, 4, 2);
    LittleEndianAt(WAL_MAGIC, 4, 3);
    assert Pow2(0) == 1 && Pow2(8) == 0x100 && Pow2(16) == 0x1_0000 && Pow2(24) == 0x100_0000 by { BytePowers(); }
  }

  // ---- Whole logs -----------------------------------------------------------------------------

  /** No frame can be read at `off`. */
  predicate NoFrameAt(img: seq<byte>, off: nat) {
    HeaderInRange(img, off) && !ReadFrame(img, off).Found?
  }

  lemma {:induction false} ScanFirst(img: seq<byte>, off: nat, p: Payload, next: nat)
    requires HeaderInRange(img, off) && ReadFrame(img, off) == Found(p, next)
    ensures var rest := Scan(img, next);
            Scan(img, off) == Recovered([p] + rest.frames, rest.end, rest.inRange)
  {
    hide ReadFrame, HeaderInRange;
  }

  lemma {:induction false} ImageFirst(log: seq<Payload>)
    requires log != []
    ensures Image(log) == Frame(log[0]) + Image(log[1..])
    ensures AllFit(log) ==> |log[0]| <= MAX_PAYLOAD && AllFit(log[1..])
  {
    hide Frame;
  }

  /** Scanning passes through every frame of a log that is really there. */
  lemma {:induction false} ScanThrough(img: seq<byte>, off: nat, log: seq<Payload>)
    requires AllFit(log) && At(img, off, Image(log))
    ensures var rest := Scan(img, off + |Image(log)|);
            Scan(img, off) == Recovered(log + rest.frames, rest.end, rest.inRange)
    decreases |log|
  {
    hide *;
    if log == [] {
      ImageOfNothing();
      JoinNothing(Scan(img, off).frames);
    } else {
      var p, rest := log[0], log[1..];
      ImageFirst(log);
      AtConcat(img, off, Frame(p), Image(rest));
      ReadWritten(img, off, p);
      ScanFirst(img, off, p, off + |Frame(p)|);
      ScanThrough(img, off + |Frame(p)|, rest);
      JoinFirst(log, Scan(img, off + |Image(log)|).frames);
    }
  }

  lemma ImageOfNothing()
    ensures Image([]) == []
  {}

  lemma JoinNothing(tail: seq<Payload>)
    ensures [] + tail == tail
  {}

  lemma JoinFirst(log: seq<Payload>, tail: seq<Payload>)
    requires log != []
    ensures [log[0]] + (log[1..] + tail) == log + tail
  {}

  /** Whatever a scan returns is really there, up to the point where it stopped. */
  lemma {:induction false} ScanFinds(img: seq<byte>, off: nat)
    requires off <= |img|
    ensures var r := Scan(img, off);
            && AllFit(r.frames) && At(img, off, Image(r.frames)) && r.end == off + |Image(r.frames)|
            && (r.inRange <==> NoFrameAt(img, r.end))
    decreases |img| - off
  {
    hide Frame, ReadFrame;
    if HeaderInRange(img, off) {
      FrameAdvances(img, off);
      if ReadFrame(img, off).Found? {
        var p, next := ReadFrame(img, off).payload, ReadFrame(img, off).next;
        WrittenRead(img, off);
        ScanFinds(img, next);
        var rest := Scan(img, next);
        AtConcat(img, off, Frame(p), Image(rest.frames));
        assert ([p] + rest.frames)[1..] == rest.frames;
      }
    }
  }

  /** Recovery is determined by the image: exactly the log that stands at its start and is followed by no frame. */
  lemma {:induction false} ScanExact(img: seq<byte>, log: seq<Payload>, end: nat)
    ensures Scan(img, 0) == Recovered(log, end, true) <==>
            && AllFit(log) && At(img, 0, Image(log)) && end == |Image(log)| && NoFrameAt(img, end)
  {
    hide Frame, ReadFrame, HeaderInRange;
    if AllFit(log) && At(img, 0, Image(log)) && end == |Image(log)| && NoFrameAt(img, end) {
      ScanThrough(img, 0, log);
      assert log + [] == log;
    }
    ScanFinds(img, 0);
  }
}
