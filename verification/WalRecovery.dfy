/**
  What recovery returns: after clean runs with any number of growths and reopenings, after torn
  writes, after truncation and after burst damage.
 */
module WalRecovery {
  import opened Masks
  import opened Bytes
  import opened Crc32
  import opened CrcBurst
  import opened WalFormat

  // ---- Growing --------------------------------------------------------------------------------

  /** `align_to_page`: add, wrap around at 64 bits, mask. */
  function AlignToPage(size: nat, page: nat): nat
    requires 0 < page <= TWO_64
  {
    And((size + page - 1) % TWO_64, Not64(page - 1))
  }

  predicate PowerOfTwoPage(page: nat, k: nat) {
    k <= 63 && page == Pow2(k)
  }

  lemma AlignValue(size: nat, page: nat, k: nat)
    requires PowerOfTwoPage(page, k) && size + page <= TWO_64
    ensures page <= TWO_64
    ensures var a := size + page - 1; AlignToPage(size, page) == a - a % page
  {
    hide And;
    Pow2Values();
    Pow2Mono(k, 64);
    MaskRoundsDown(size + page - 1, k, 64);
  }

  /** For a power-of-two page the mask trick yields the least page multiple not below `size`. */
  lemma AlignIsLeast(size: nat, page: nat, k: nat)
    requires PowerOfTwoPage(page, k) && size + page <= TWO_64
    ensures page <= TWO_64
    ensures var r := AlignToPage(size, page);
            && r % page == 0 && size <= r
            && forall m: nat :: m % page == 0 && size <= m ==> r <= m
  {
    AlignValue(size, page, k);
    hide AlignToPage;
    var a := size + page - 1;
    RoundedDown(a, page);
    forall m: nat | m % page == 0 && size <= m
      ensures a - a % page <= m
    {
      NextMultiple(a, m, page);
    }
  }

  /** `align_to_page` never returns less than it is given. */
  lemma AlignEnough(size: nat, page: nat, k: nat)
    requires PowerOfTwoPage(page, k) && size + page <= TWO_64
    ensures page <= TWO_64 && size <= AlignToPage(size, page)
  {
    hide AlignToPage;
    AlignValue(size, page, k);
  }

  lemma RoundedDown(a: nat, page: nat)
    requires page > 0
    ensures (a - a % page) % page == 0
  {
    ModUnique(a - a % page, page, a / page, 0);
  }

  lemma NextMultiple(a: nat, m: nat, page: nat)
    requires page > 0 && m % page == 0 && a < m + page
    ensures a - a % page <= m
  {
    var x, y := m / page, a / page;
    assert m == page * x && a - a % page == page * y;
    if y > x {
      MulStep(page, x, y);
    }
  }

  predicate AllZero(s: seq<byte>) {
    forall i :: 0 <= i < |s| ==> s[i] == 0
  }

  /** `ftruncate`: keep the common prefix, extend with zeros. */
  function Resize(img: seq<byte>, size: nat): (r: seq<byte>)
    ensures |r| == size
  {
    if size <= |img| then img[..size] else img + Zeros(size - |img|)
  }

  // ---- The log as a value ---------------------------------------------------------------------

  datatype WalState = WalState(image: seq<byte>, offset: nat)

  /** No 64-bit size computed while appending `p` wraps around. */
  predicate Room(w: WalState, p: Payload, page: nat) {
    2 * |w.image| + 2 * w.offset + |p| + 12 + 2 * page <= TWO_64
  }

  /** The mapped size an append works with. */
  function SizeFor(w: WalState, frame: nat, page: nat): nat
    requires 0 < page <= TWO_64
  {
    if w.offset + frame > |w.image| then AlignToPage(Max(|w.image| * 2, w.offset + frame + page), page)
    else |w.image|
  }

  /** After `grow` the frame fits, and nothing already mapped is lost. */
  lemma GrownEnough(w: WalState, p: Payload, page: nat, k: nat)
    requires PowerOfTwoPage(page, k) && Room(w, p, page)
    ensures page <= TWO_64
    ensures var size := SizeFor(w, |Frame(p)|, page);
            w.offset + |Frame(p)| <= size && |w.image| <= size
  {
    hide AlignToPage, Frame, PowerOfTwoPage;
    if w.offset + |Frame(p)| > |w.image| {
      AlignEnough(Max(|w.image| * 2, w.offset + |Frame(p)| + page), page, k);
    } else {
      AlignEnough(0, page, k);
    }
  }

  /** When it grows, to the least whole number of pages that doubles the mapping and leaves a page behind the frame. */
  lemma GrownLeast(w: WalState, p: Payload, page: nat, k: nat)
    requires PowerOfTwoPage(page, k) && Room(w, p, page)
    ensures page <= TWO_64
    ensures var size := SizeFor(w, |Frame(p)|, page);
            if w.offset + |Frame(p)| <= |w.image| then size == |w.image|
            else
              && size % page == 0 && 2 * |w.image| <= size && w.offset + |Frame(p)| + page <= size
              && forall m: nat :: m % page == 0 && 2 * |w.image| <= m && w.offset + |Frame(p)| + page <= m ==> size <= m
  {
    hide AlignToPage, Frame, PowerOfTwoPage;
    AlignIsLeast(0, page, k);
    if w.offset + |Frame(p)| > |w.image| {
      AlignIsLeast(Max(|w.image| * 2, w.offset + |Frame(p)| + page), page, k);
    }
  }

  /** Byte by byte: what both sizes share stays, and the rest is zero. */
  lemma ResizeAt(img: seq<byte>, size: nat, i: nat)
    requires i < size
    ensures Resize(img, size)[i] == if i < |img| then img[i] else 0
  {}

  function Overwrite(img: seq<byte>, off: nat, part: seq<byte>): (r: seq<byte>)
    requires off + |part| <= |img|
    ensures |r| == |img|
  {
    img[..off] + part + img[off + |part|..]
  }

  /** Storage after a sync of the bytes from `from` to `end`. */
  function Synced(disk: seq<byte>, mem: seq<byte>, from: nat, end: nat): (r: seq<byte>)
    requires from <= end <= |mem| == |disk|
    ensures |r| == |disk|
  {
    disk[..from] + mem[from..end] + disk[end..]
  }

  /** Byte by byte: what lies in the range comes from memory, and all else is as it was. */
  lemma SyncedAt(disk: seq<byte>, mem: seq<byte>, from: nat, end: nat, i: nat)
    requires from <= end <= |mem| == |disk| && i < |disk|
    ensures Synced(disk, mem, from, end)[i] == if from <= i < end then mem[i] else disk[i]
  {}

  /** The log after one `append`; unchanged when the frame would not fit even after growing. */
  function Append(w: WalState, p: Payload, page: nat): WalState
    requires 0 < page <= TWO_64
  {
    var img := Resize(w.image, SizeFor(w, |Frame(p)|, page));
    if w.offset + |Frame(p)| <= |img|
    then WalState(Overwrite(img, w.offset, Frame(p)), w.offset + |Frame(p)|)
    else w
  }

  /** Opening an existing file and replaying it. */
  function Reopen(image: seq<byte>, size: nat, page: nat): WalState
    requires 0 < page <= TWO_64
  {
    var img := Resize(image, AlignToPage(Max(size, page), page));
    WalState(img, Scan(img, 0).end)
  }

  /** The log holds exactly `log`, with nothing but zeros behind it. */
  ghost predicate Clean(w: WalState, log: seq<Payload>) {
    && AllFit(log)
    && w.offset == |Image(log)| <= |w.image|
    && w.image[..w.offset] == Image(log)
    && AllZero(w.image[w.offset..])
  }

  // ---- Clean logs -----------------------------------------------------------------------------

  lemma {:induction false} ImageAppend(a: seq<Payload>, b: seq<Payload>)
    ensures Image(a + b) == Image(a) + Image(b)
    decreases |a|
  {
    hide Frame;
    if a == [] {
      assert a + b == b;
    } else {
      assert (a + b)[1..] == a[1..] + b;
      ImageAppend(a[1..], b);
    }
  }

  lemma {:induction false} ImageSnoc(log: seq<Payload>, p: Payload)
    ensures Image(log + [p]) == Image(log) + Frame(p)
  {
    hide Frame;
    ImageAppend(log, [p]);
    assert [p][1..] == [];
    assert Frame(p) + [] == Frame(p);
  }

  lemma MagicFirstByte(img: seq<byte>, off: nat)
    ensures MagicAt(img, off) ==> img[off] as int == 0x7C
  {
    if MagicAt(img, off) {
      U32Of(img[off..off + 4]);
      assert img[off] == U32(WAL_MAGIC)[0];
    }
  }

  lemma ZerosAreNoFrame(img: seq<byte>, off: nat)
    requires off <= |img| && AllZero(img[off..])
    ensures NoFrameAt(img, off)
  {
    if off < |img| {
      assert img[off] == img[off..][0] == 0;
    }
    MagicFirstByte(img, off);
  }

  lemma CleanScan(w: WalState, log: seq<Payload>)
    requires Clean(w, log)
    ensures Scan(w.image, 0) == Recovered(log, w.offset, true)
  {
    ZerosAreNoFrame(w.image, w.offset);
    ScanExact(w.image, log, w.offset);
  }

  lemma ResizeClean(w: WalState, log: seq<Payload>, size: nat)
    requires Clean(w, log) && w.offset <= size
    ensures Clean(WalState(Resize(w.image, size), w.offset), log)
  {
    var img := Resize(w.image, size);
    assert img[..w.offset] == w.image[..w.offset];
    forall i | 0 <= i < |img[w.offset..]|
      ensures img[w.offset..][i] == 0
    {
      assert img[w.offset..][i] == img[w.offset + i];
      if w.offset + i < |w.image| {
        assert w.image[w.offset + i] == w.image[w.offset..][i];
      }
    }
  }

  lemma OverwriteParts(img: seq<byte>, off: nat, part: seq<byte>)
    requires off + |part| <= |img|
    ensures Overwrite(img, off, part)[..off + |part|] == img[..off] + part
    ensures Overwrite(img, off, part)[off + |part|..] == img[off + |part|..]
  {}

  lemma AppendClean(w: WalState, log: seq<Payload>, p: Payload, page: nat, k: nat)
    requires Clean(w, log) && |p| <= MAX_PAYLOAD && PowerOfTwoPage(page, k) && Room(w, p, page)
    ensures page <= TWO_64
    ensures Clean(Append(w, p, page), log + [p])
  {
    hide Frame, Resize, AlignToPage;
    GrownEnough(w, p, page, k);
    var size := SizeFor(w, |Frame(p)|, page);
    ResizeClean(w, log, size);
    var img := Resize(w.image, size);
    OverwriteParts(img, w.offset, Frame(p));
    ImageSnoc(log, p);
    assert img[w.offset + |Frame(p)|..] == img[w.offset..][|Frame(p)|..];
  }

  /** Reopening at any size that holds the log replays exactly the log and resumes behind it. */
  lemma ReopenClean(w: WalState, log: seq<Payload>, size: nat, page: nat, k: nat)
    requires Clean(w, log) && w.offset <= size && PowerOfTwoPage(page, k) && Max(size, page) + page <= TWO_64
    ensures page <= TWO_64
    ensures var r := Reopen(w.image, size, page);
            Clean(r, log) && Scan(r.image, 0) == Recovered(log, w.offset, true)
  {
    hide AlignToPage, Resize, Scan;
    AlignEnough(Max(size, page), page, k);
    var target := AlignToPage(Max(size, page), page);
    ResizeClean(w, log, target);
    CleanScan(WalState(Resize(w.image, target), w.offset), log);
  }

  datatype Op = AppendOp(payload: Payload) | ReopenOp(size: nat)

  function Step(w: WalState, op: Op, page: nat): WalState
    requires 0 < page <= TWO_64
  {
    match op
    case AppendOp(p) => Append(w, p, page)
    case ReopenOp(size) => Reopen(w.image, size, page)
  }

  /** What the caller must observe for `op`: payload bound, sizes within 64 bits, no truncation of the log. */
  predicate StepAllowed(w: WalState, op: Op, page: nat) {
    match op
    case AppendOp(p) => |p| <= MAX_PAYLOAD && Room(w, p, page)
    case ReopenOp(size) => w.offset <= size && Max(size, page) + page <= TWO_64
  }

  function Run(w: WalState, ops: seq<Op>, page: nat): WalState
    requires 0 < page <= TWO_64
    decreases |ops|
  {
    if ops == [] then w else Run(Step(w, ops[0], page), ops[1..], page)
  }

  predicate RunAllowed(w: WalState, ops: seq<Op>, page: nat)
    requires 0 < page <= TWO_64
    decreases |ops|
  {
    ops == [] || (StepAllowed(w, ops[0], page) && RunAllowed(Step(w, ops[0], page), ops[1..], page))
  }

  function Appended(ops: seq<Op>): seq<Payload>
    decreases |ops|
  {
    if ops == [] then []
    else (if ops[0].AppendOp? then [ops[0].payload] else []) + Appended(ops[1..])
  }

  /** Every run of appends (growing as needed) and reopenings loses nothing, adds nothing and keeps the order. */
  lemma {:induction false} RunClean(w: WalState, log: seq<Payload>, ops: seq<Op>, page: nat, k: nat)
    requires PowerOfTwoPage(page, k) && page <= TWO_64
    requires Clean(w, log) && RunAllowed(w, ops, page)
    ensures Clean(Run(w, ops, page), log + Appended(ops))
    ensures Scan(Run(w, ops, page).image, 0) ==
            Recovered(log + Appended(ops), Run(w, ops, page).offset, true)
    decreases |ops|
  {
    hide Append, Reopen, Clean, Scan, Room;
    if ops == [] {
      assert log + Appended(ops) == log;
      CleanScan(w, log);
    } else {
      var next := Step(w, ops[0], page);
      match ops[0] {
        case AppendOp(p) =>
          AppendClean(w, log, p, page, k);
          RunClean(next, log + [p], ops[1..], page, k);
          assert log + Appended(ops) == log + [p] + Appended(ops[1..]);
        case ReopenOp(size) =>
          ReopenClean(w, log, size, page, k);
          RunClean(next, log, ops[1..], page, k);
          assert Appended(ops) == Appended(ops[1..]);
      }
    }
  }

  /** A fresh file is a clean, empty log. */
  lemma FreshIsClean(size: nat)
    ensures Clean(WalState(Resize([], size), 0), [])
  {
    assert Resize([], size)[..0] == [];
  }

  // ---- Torn writes and stale bytes ------------------------------------------------------------

  /**
    The bytes from the end of the log on may be anything: what was logged comes back first, and it
    is all that comes back exactly when no frame can be read at that end.
   */
  lemma {:induction false} TornWrite(img: seq<byte>, log: seq<Payload>)
    requires AllFit(log) && At(img, 0, Image(log))
    ensures log <= Scan(img, 0).frames
    ensures Scan(img, 0) == Recovered(log, |Image(log)|, true) <==> NoFrameAt(img, |Image(log)|)
  {
    ScanThrough(img, 0, log);
    ScanExact(img, log, |Image(log)|);
  }

  /** Storage and memory both begin with the log. */
  predicate Stored(disk: seq<byte>, mem: seq<byte>, log: seq<Payload>) {
    && AllFit(log)
    && |Image(log)| <= |disk| && disk[..|Image(log)|] == Image(log)
    && |Image(log)| <= |mem| && mem[..|Image(log)|] == Image(log)
  }

  /** Each byte a crash leaves is the one last synced or the one in memory: pages may be written back at any time. */
  predicate Mixed(img: seq<byte>, disk: seq<byte>, mem: seq<byte>) {
    && |img| <= |disk| && |img| <= |mem|
    && forall i :: 0 <= i < |img| ==> img[i] == disk[i] || img[i] == mem[i]
  }

  /** Whatever mixture of storage and memory survives a crash, the log both hold is in it and replays first. */
  lemma {:induction false} MixedKeepsLog(img: seq<byte>, disk: seq<byte>, mem: seq<byte>, log: seq<Payload>)
    requires Stored(disk, mem, log) && Mixed(img, disk, mem) && |Image(log)| <= |img|
    ensures At(img, 0, Image(log))
    ensures log <= Scan(img, 0).frames
  {
    var n := |Image(log)|;
    forall i | 0 <= i < n
      ensures img[i] == Image(log)[i]
    {
      assert disk[i] == disk[..n][i] && mem[i] == mem[..n][i];
    }
    assert img[0..n] == Image(log);
    TornWrite(img, log);
  }

  /** Writing behind the log leaves it in both. */
  lemma {:induction false} StoredOverwrite(disk: seq<byte>, mem: seq<byte>, log: seq<Payload>, off: nat,
                                           part: seq<byte>)
    requires Stored(disk, mem, log) && |Image(log)| <= off && off + |part| <= |mem|
    ensures Stored(disk, Overwrite(mem, off, part), log)
  {
    hide Image;
    assert Overwrite(mem, off, part)[..|Image(log)|] == mem[..|Image(log)|];
  }

  /** So does resizing both to a size that holds the log. */
  lemma {:induction false} StoredResize(disk: seq<byte>, mem: seq<byte>, log: seq<Payload>, size: nat)
    requires Stored(disk, mem, log) && |Image(log)| <= size
    ensures Stored(Resize(disk, size), Resize(mem, size), log)
  {
    hide Image;
    assert Resize(disk, size)[..|Image(log)|] == disk[..|Image(log)|];
    assert Resize(mem, size)[..|Image(log)|] == mem[..|Image(log)|];
  }

  /** So does any sync. */
  lemma {:induction false} StoredSync(disk: seq<byte>, mem: seq<byte>, log: seq<Payload>, from: nat, end: nat)
    requires Stored(disk, mem, log) && from <= end <= |mem| == |disk|
    ensures Stored(Synced(disk, mem, from, end), mem, log)
  {
    hide Image;
    var n, after := |Image(log)|, Synced(disk, mem, from, end);
    forall i | 0 <= i < n
      ensures after[i] == mem[i]
    {
      assert disk[i] == disk[..n][i] == mem[..n][i] == mem[i];
    }
    assert after[..n] == mem[..n];
  }

  /** With zeros behind the log in storage and in memory, no mixture of the two holds a frame there. */
  lemma MixedZeros(img: seq<byte>, disk: seq<byte>, mem: seq<byte>, end: nat)
    requires Mixed(img, disk, mem) && end <= |img|
    requires AllZero(disk[end..]) && AllZero(mem[end..])
    ensures NoFrameAt(img, end)
  {
    forall i | 0 <= i < |img[end..]|
      ensures img[end..][i] == 0
    {
      assert img[end..][i] == img[end + i];
      assert disk[end + i] == disk[end..][i] && mem[end + i] == mem[end..][i];
    }
    ZerosAreNoFrame(img, end);
  }

  /** An append that completed before the crash comes back as one more frame. */
  lemma {:induction false} CompletedAppend(img: seq<byte>, log: seq<Payload>, p: Payload)
    requires AllFit(log) && |p| <= MAX_PAYLOAD
    requires At(img, 0, Image(log)) && At(img, |Image(log)|, Frame(p))
    ensures log + [p] <= Scan(img, 0).frames
    ensures Scan(img, 0) == Recovered(log + [p], |Image(log + [p])|, true) <==> NoFrameAt(img, |Image(log + [p])|)
  {
    hide At, Frame;
    ImageSnoc(log, p);
    AtConcat(img, 0, Image(log), Frame(p));
    TornWrite(img, log + [p]);
  }

  /** One frame stands at `end`, and nothing can be read behind it. */
  predicate LastFrameAt(img: seq<byte>, end: nat, p: Payload) {
    At(img, end, Frame(p)) && NoFrameAt(img, end + |Frame(p)|)
  }

  /**
    With arbitrary bytes behind the log, replay returns exactly the log if and only if nothing can be
    read there, and exactly one payload more if and only if its frame stands there as the last.
   */
  lemma {:induction false} TailExact(img: seq<byte>, log: seq<Payload>, p: Payload)
    requires AllFit(log) && At(img, 0, Image(log)) && |p| <= MAX_PAYLOAD
    ensures log <= Scan(img, 0).frames
    ensures Scan(img, 0).inRange && Scan(img, 0).frames == log <==> NoFrameAt(img, |Image(log)|)
    ensures Scan(img, 0).inRange && Scan(img, 0).frames == log + [p] <==> LastFrameAt(img, |Image(log)|, p)
  {
    hide Frame, Scan, Image, NoFrameAt, At;
    ScanFinds(img, 0);
    TornWrite(img, log);
    ImageSnoc(log, p);
    AtConcat(img, 0, Image(log), Frame(p));
    ScanExact(img, log + [p], |Image(log + [p])|);
  }

  lemma {:induction false} AppendKeepsLog(grown: seq<byte>, before: WalState, log: seq<Payload>, data: Payload)
    requires before.offset == |Image(log)| <= |before.image| <= |grown|
    requires before.image[..before.offset] == Image(log)
    requires grown == Resize(before.image, |grown|) && before.offset + |Frame(data)| <= |grown|
    ensures Overwrite(grown, before.offset, Frame(data))[..before.offset + |Frame(data)|] == Image(log + [data])
    ensures before.offset + |Frame(data)| == |Image(log + [data])|
    ensures Overwrite(grown, before.offset, Frame(data))[..before.offset] == Image(log)
  {
    hide Frame;
    OverwriteParts(grown, before.offset, Frame(data));
    ImageSnoc(log, data);
    assert Overwrite(grown, before.offset, Frame(data))[..before.offset] == grown[..before.offset];
    assert grown[..before.offset] == before.image[..before.offset];
  }

  /** Whether a frame can be read at `off` depends on the bytes from there on only. */
  lemma SameTail(a: seq<byte>, b: seq<byte>, off: nat)
    requires |a| == |b| && off <= |a| && a[off..] == b[off..]
    ensures NoFrameAt(a, off) <==> NoFrameAt(b, off)
  {
    hide IeeeCrc, Unsigned, BytesWord;
    if off + 12 <= |a| {
      SameSlice(a, b, off, off, off + 4);
      SameSlice(a, b, off, off + 4, off + 8);
      var n := SizeAt(a, off);
      if off + 12 + n <= |a| {
        SameSlice(a, b, off, off + 8, off + 8 + n);
        SameSlice(a, b, off, off + 8 + n, off + 12 + n);
      }
    }
  }

  lemma SameSlice(a: seq<byte>, b: seq<byte>, off: nat, i: nat, j: nat)
    requires |a| == |b| && off <= i <= j <= |a| && a[off..] == b[off..]
    ensures a[i..j] == b[i..j]
  {
    forall t | i <= t < j
      ensures a[t] == b[t]
    {
      assert a[t] == a[off..][t - off] == b[off..][t - off];
    }
  }

  /**
    Replay after an append returns the log and the new payload, and resumes behind it, if and only
    if no frame can be read, before the append, at the place where the new one will end.
   */
  lemma {:induction false} AppendExact(w: WalState, log: seq<Payload>, p: Payload, page: nat, k: nat)
    requires AllFit(log) && w.offset == |Image(log)| <= |w.image| && w.image[..w.offset] == Image(log)
    requires |p| <= MAX_PAYLOAD && PowerOfTwoPage(page, k) && Room(w, p, page)
    ensures 0 < page <= TWO_64
    ensures var end := w.offset + |Frame(p)|;
            Scan(Append(w, p, page).image, 0) == Recovered(log + [p], end, true) <==>
            NoFrameAt(Resize(w.image, SizeFor(w, |Frame(p)|, page)), end)
  {
    hide Frame, Image, Resize, AlignToPage, Scan, NoFrameAt, SizeFor, Overwrite;
    GrownEnough(w, p, page, k);
    var end, grown := w.offset + |Frame(p)|, Resize(w.image, SizeFor(w, |Frame(p)|, page));
    var after := Overwrite(grown, w.offset, Frame(p));
    AppendKeepsLog(grown, w, log, p);
    OverwriteParts(grown, w.offset, Frame(p));
    SameTail(after, grown, end);
    TornWrite(after, log + [p]);
  }

  /**
    Frames left over behind a damaged one come back to life: appending a frame of the damaged one's
    length makes the scan run on into them. So "replay returns what was appended" needs the bytes
    behind the log to hold no frame, which `append` does not see to.
   */
  lemma {:induction false} StaleFrameReturns(a: Payload, damaged: Payload, stale: Payload, img: seq<byte>, page: nat)
    requires 0 < page <= TWO_64 && |a| <= MAX_PAYLOAD && |stale| <= MAX_PAYLOAD && |damaged| == |a|
    requires img == Frame(damaged)[0 := 0] + Frame(stale)
    ensures Scan(img, 0) == Recovered([], 0, true)
    ensures Scan(Append(WalState(img, 0), a, page).image, 0).frames == [a, stale]
  {
    hide Frame, Append;
    MagicFirstByte(img, 0);
    ScanWithoutMagic(img);
    StaleImage(a, damaged, stale, img, page);
    hide MagicAt, Scan, ReadFrame, HeaderInRange;
    ScanTwo(a, stale);
  }

  lemma ScanTwo(a: Payload, b: Payload)
    requires |a| <= MAX_PAYLOAD && |b| <= MAX_PAYLOAD
    ensures Scan(Frame(a) + Frame(b), 0).frames == [a, b]
  {
    hide Frame, Scan;
    var img := Frame(a) + Frame(b);
    ImageOfTwo(a, b);
    assert img[0..|img|] == img;
    ScanThrough(img, 0, [a, b]);
    NothingBehind(img);
  }

  lemma {:induction false} ScanWithoutMagic(img: seq<byte>)
    requires !MagicAt(img, 0)
    ensures Scan(img, 0) == Recovered([], 0, true)
  {}

  lemma ImageOfTwo(a: Payload, b: Payload)
    ensures Image([a, b]) == Frame(a) + Frame(b)
  {
    hide Frame;
    ImageSnoc([], a);
    ImageSnoc([a], b);
    assert [] + [a] == [a] && [a] + [b] == [a, b];
    assert Image([]) + Frame(a) == Frame(a);
  }

  lemma StaleImage(a: Payload, damaged: Payload, stale: Payload, img: seq<byte>, page: nat)
    requires 0 < page <= TWO_64 && |damaged| == |a|
    requires img == Frame(damaged)[0 := 0] + Frame(stale)
    ensures Append(WalState(img, 0), a, page).image == Frame(a) + Frame(stale)
  {
    hide Frame;
    var n := |Frame(a)|;
    assert Resize(img, |img|) == img;
    assert img[..0] == [] && img[n..] == Frame(stale);
    assert [] + Frame(a) == Frame(a);
  }

  lemma {:induction false} NothingBehind(img: seq<byte>)
    ensures Scan(img, |img|) == Recovered([], |img|, true)
  {}

  // ---- Truncation -----------------------------------------------------------------------------

  /** A log splits at every frame. */
  lemma {:induction false} ImageSplit(log: seq<Payload>, k: nat)
    requires k <= |log|
    ensures Image(log) == Image(log[..k]) + Image(log[k..])
    ensures k < |log| ==> Image(log[..k + 1]) == Image(log[..k]) + Frame(log[k])
  {
    hide Frame, Image;
    assert log == log[..k] + log[k..];
    ImageAppend(log[..k], log[k..]);
    if k < |log| {
      assert log[..k + 1] == log[..k] + [log[k]];
      ImageSnoc(log[..k], log[k]);
    }
  }

  lemma {:induction false} FrameInLog(img: seq<byte>, log: seq<Payload>, k: nat)
    requires At(img, 0, Image(log)) && k < |log|
    ensures At(img, 0, Image(log[..k])) && At(img, |Image(log[..k])|, Frame(log[k]))
  {
    hide Frame, At, Image;
    ImageSplit(log, k + 1);
    AtConcat(img, 0, Image(log[..k + 1]), Image(log[k + 1..]));
    ImageSplit(log, k);
    AtConcat(img, 0, Image(log[..k]), Frame(log[k]));
  }

  /** How many frames from the start of a log fit wholly into `size` bytes. */
  function Fitting(log: seq<Payload>, size: nat): (n: nat)
    ensures n <= |log|
    decreases |log|
  {
    if log == [] || |Frame(log[0])| > size then 0 else 1 + Fitting(log[1..], size - |Frame(log[0])|)
  }

  /** It is the longest prefix that fits. */
  lemma {:induction false} FittingLongest(log: seq<Payload>, size: nat)
    ensures var n := Fitting(log, size);
            |Image(log[..n])| <= size && (n < |log| ==> size < |Image(log[..n + 1])|)
    decreases |log|
  {
    hide Frame;
    if log != [] && |Frame(log[0])| <= size {
      var n, rest := Fitting(log, size), log[1..];
      FittingLongest(rest, size - |Frame(log[0])|);
      assert log[..n][1..] == rest[..n - 1];
      if n < |log| {
        assert log[..n + 1][1..] == rest[..n];
      }
    } else if log != [] {
      assert log[..1] == [log[0]] && [log[0]][1..] == [];
      assert log[..0] == [];
    }
  }

  /** Cutting a clean log to any size leaves exactly the longest prefix of frames that fit wholly inside. */
  lemma {:induction false} TruncatedLog(w: WalState, log: seq<Payload>, size: nat)
    requires Clean(w, log) && size <= |w.image|
    ensures var kept := log[..Fitting(log, size)];
            Scan(Resize(w.image, size), 0) == Recovered(kept, |Image(kept)|, true)
  {
    hide Frame, Scan, Image, NoFrameAt;
    FittingLongest(log, size);
    var fit := Fitting(log, size);
    var off := |Image(log[..fit])|;
    var img := w.image[..size];
    assert NoFrameAt(img, off) by {
      if fit < |log| {
        FrameInLog(w.image, log, fit);
        ImageSplit(log, fit);
        CutFrame(w.image, size, off, log[fit]);
      } else {
        assert log[..fit] == log;
        assert img[off..] == w.image[off..][..size - off];
        ZerosAreNoFrame(img, off);
      }
    }
    ImageSplit(log, fit);
    assert At(img, 0, Image(log[..fit])) by {
      assert img[..off] == w.image[..w.offset][..off];
    }
    ScanExact(img, log[..fit], off);
  }

  lemma CutFrame(img: seq<byte>, size: nat, off: nat, p: Payload)
    requires |p| <= MAX_PAYLOAD && At(img, off, Frame(p)) && off <= size < off + |Frame(p)|
    ensures NoFrameAt(img[..size], off)
  {
    if MagicAt(img[..size], off) {
      FrameParts(img, off, p);
      assert img[..size][off + 4..off + 8] == img[off + 4..off + 8];
      U32Inverse(|p|);
      FrameSizeExact(|p|);
    }
  }

  // ---- Damage ---------------------------------------------------------------------------------

  /**
    Damage confined to 32 consecutive bits of a frame's data and checksum stops the scan at that
    frame: the frames before it come back, and nothing else.
   */
  lemma {:induction false} DamagedFrame(img: seq<byte>, before: seq<Payload>, p: Payload, at: nat)
    requires AllFit(before) && |p| <= MAX_PAYLOAD
    requires var off := |Image(before)|;
             && off + |Frame(p)| <= |img|
             && At(img, 0, Image(before)) && At(img, off, U32(WAL_MAGIC) + U32(|p|))
             && img[off + 8..off + 12 + |p|] != p + Checksum(p)
             && SameOutside(Bits(img[off + 8..off + 12 + |p|]), Bits(p + Checksum(p)), at, 32)
    ensures Scan(img, 0) == Recovered(before, |Image(before)|, true)
  {
    hide Frame, Scan, Checksum, SameOutside, Bits, At, U32, Image;
    DamagedBody(img, |Image(before)|, p, at);
    hide NoFrameAt;
    ScanExact(img, before, |Image(before)|);
  }

  lemma {:induction false} DamagedBody(img: seq<byte>, off: nat, p: Payload, at: nat)
    requires |p| <= MAX_PAYLOAD && off + |Frame(p)| <= |img| && At(img, off, U32(WAL_MAGIC) + U32(|p|))
    requires img[off + 8..off + 12 + |p|] != p + Checksum(p)
    requires SameOutside(Bits(img[off + 8..off + 12 + |p|]), Bits(p + Checksum(p)), at, 32)
    ensures NoFrameAt(img, off)
  {
    hide Frame, Checksum, SameOutside, Bits, ReadFrame, At, U32, SizeAt, HeaderInRange;
    HeaderSize(img, off, |p|);
    if ReadFrame(img, off).Found? {
      var q := ReadFrame(img, off).payload;
      WrittenRead(img, off);
      FrameBody(img, off, q);
      SameChecksum(p, q, at);
    }
  }

  lemma FrameBody(img: seq<byte>, off: nat, q: Payload)
    requires |q| <= MAX_PAYLOAD && At(img, off, Frame(q))
    ensures off + 12 + |q| <= |img|
    ensures SizeAt(img, off) == |q|
    ensures img[off + 8..off + 12 + |q|] == q + Checksum(q)
  {
    hide Frame, Checksum;
    FrameParts(img, off, q);
    HeaderSize(img, off, |q|);
    AtConcat(img, off + 8, q, Checksum(q));
  }

  lemma HeaderSize(img: seq<byte>, off: nat, n: nat)
    requires n <= MAX_PAYLOAD && off + 12 <= |img|
    requires At(img, off + 4, U32(n)) || At(img, off, U32(WAL_MAGIC) + U32(n))
    ensures SizeAt(img, off) == n && HeaderInRange(img, off)
  {
    AtConcat(img, off, U32(WAL_MAGIC), U32(n));
    U32Inverse(n);
  }

  lemma {:induction false} SameChecksum(p: Payload, q: Payload, at: nat)
    requires |p| == |q| && SameOutside(Bits(q + Checksum(q)), Bits(p + Checksum(p)), at, 32)
    ensures p == q
  {
    hide Bits, IeeeCrc, WordBytes;
    CodewordBurst(q, p, at);
  }
}
