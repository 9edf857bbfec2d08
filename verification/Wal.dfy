/**
  The write-ahead log object: a resizable mapping, the append position and the frame counter.
 */
module Wal {
  import opened Masks
  import opened Bytes
  import opened Crc32
  import opened CrcBurst
  import opened WalFormat
  import opened WalRecovery

  /** The frames handed to the replay callback, numbered from 1. */
  function Numbered(frames: seq<Payload>): (r: seq<(nat, Payload)>)
    ensures |r| == |frames|
    ensures forall i :: 0 <= i < |frames| ==> r[i].0 == i + 1 && r[i].1 == frames[i]
  {
    seq(|frames|, i requires 0 <= i < |frames| => (i + 1, frames[i]))
  }

  lemma OverwriteTwice(img: seq<byte>, off: nat, a: seq<byte>, b: seq<byte>)
    requires off + |a| + |b| <= |img|
    ensures Overwrite(Overwrite(img, off, a), off + |a|, b) == Overwrite(img, off, a + b)
  {
    OverwriteParts(img, off, a);
    assert img[off + |a|..][|b|..] == img[off + |a| + |b|..];
    assert Overwrite(img, off, a)[off + |a| + |b|..] == Overwrite(img, off, a)[off + |a|..][|b|..];
  }

  /** Where the page of `offset` begins. */
  function PageStart(offset: nat, page: nat): (r: nat)
    requires page > 0
    ensures r <= offset
  {
    ModBound(offset, page);
    offset - offset % page
  }

  /** Masking an offset rounds it down to its page. */
  lemma {:induction false} PageStartMask(offset: nat, page: nat, k: nat)
    requires PowerOfTwoPage(page, k) && offset < TWO_64
    ensures 0 < page <= TWO_64 && And(offset, Not64(page - 1)) == PageStart(offset, page)
  {
    hide And;
    Pow2Values();
    MaskRoundsDown(offset, k, 64);
  }

  /** Four copies, one after the other, make a frame; after each, its beginning stands there. */
  lemma FrameInFourCopies(img: seq<byte>, off: nat, p: Payload)
    requires off + |Frame(p)| <= |img|
    ensures var i1 := Overwrite(img, off, U32(WAL_MAGIC));
            var i2 := Overwrite(i1, off + 4, U32(|p|));
            var i3 := Overwrite(i2, off + 8, p);
            && i1 == Overwrite(img, off, Frame(p)[..4])
            && i2 == Overwrite(img, off, Frame(p)[..8])
            && i3 == Overwrite(img, off, Frame(p)[..8 + |p|])
            && Overwrite(i3, off + 8 + |p|, Checksum(p)) == Overwrite(img, off, Frame(p))
  {
    hide Overwrite, Checksum, U32;
    var m, s, c := U32(WAL_MAGIC), U32(|p|), Checksum(p);
    OverwriteTwice(img, off, m, s);
    OverwriteTwice(img, off, m + s, p);
    OverwriteTwice(img, off, m + s + p, c);
    assert m + s + p + c == m + (s + (p + c));
    assert Frame(p)[..4] == m && Frame(p)[..8] == m + s && Frame(p)[..8 + |p|] == m + s + p;
  }

  class WriteAheadLog {
    const page: nat
    ghost const pageBits: nat
    const table: Table
    var mapped: array<byte>
    /** The file as storage is known to hold it: every byte as of the last sync that covered it. */
    var disk: seq<byte>
    var writeOffset: nat
    var sequence: nat
    /** The payloads of the frames below `writeOffset`. */
    ghost var log: seq<Payload>

    /** The mapping and its fixed parameters are usable. */
    ghost predicate Opened()
      reads this, table, table.entries
    {
      && PowerOfTwoPage(page, pageBits) && 0 < page <= TWO_64
      && table.Valid() && table.entries as object != mapped
      && |disk| == mapped.Length
    }

    ghost predicate Valid()
      reads this, mapped, table, table.entries
    {
      && Opened()
      && AllFit(log) && sequence == |log|
      && writeOffset == |Image(log)| <= mapped.Length
      && mapped[..writeOffset] == Image(log)
    }

    /** Storage holds the whole log: the append position is not ahead of the syncs. */
    ghost predicate Durable()
      reads this
    {
      writeOffset <= |disk| && disk[..writeOffset] == Image(log)
    }

    /** Storage and mapping both hold the log: what a crash leaves of them holds it too. */
    ghost predicate Survives()
      reads this, mapped
    {
      Stored(disk, mapped[..], log)
    }

    ghost function State(): WalState
      reads this, mapped
    {
      WalState(mapped[..], writeOffset)
    }

    /** Opens the file, sized to whole pages; nothing has been read yet. */
    constructor (file: seq<byte>, initialSize: nat, pageSize: nat, ghost bits: nat, crcTable: Table)
      requires PowerOfTwoPage(pageSize, bits) && pageSize <= TWO_64
      requires Max(initialSize, pageSize) + pageSize <= TWO_64
      requires crcTable.Valid()
      ensures Valid() && Durable() && page == pageSize && pageBits == bits && table == crcTable && fresh(mapped)
      ensures mapped[..] == Resize(file, AlignToPage(Max(initialSize, pageSize), pageSize))
      ensures disk == mapped[..] && writeOffset == 0 && sequence == 0 && log == []
    {
      page, pageBits, table := pageSize, bits, crcTable;
      writeOffset, sequence, log := 0, 0, [];
      var size := AlignToPage(Max(initialSize, pageSize), pageSize);
      var image := Resize(file, size);
      mapped := new byte[size](i requires 0 <= i < size => image[i]);
      disk := image;
      new;
      assert mapped[..] == image;
    }

    /** `ftruncate` and `mmap` at the page-aligned size. */
    method Grow(newSize: nat)
      requires Opened()
      modifies this`mapped, this`disk
      ensures Opened() && fresh(mapped)
      ensures mapped[..] == Resize(old(mapped[..]), AlignToPage(newSize, page))
      ensures disk == Resize(old(disk), mapped.Length)
      ensures old(Survives()) && |Image(log)| <= mapped.Length ==> Survives()
    {
      hide AlignToPage, Stored, Image;
      if Survives() && |Image(log)| <= AlignToPage(newSize, page) {
        StoredResize(disk, mapped[..], log, AlignToPage(newSize, page));
      }
      var size := AlignToPage(newSize, page);
      var image := Resize(mapped[..], size);
      mapped := new byte[size](i requires 0 <= i < size => image[i]);
      disk := Resize(disk, size);
      assert mapped[..] == image;
    }

    /** `memcpy` into the mapping. */
    method Copy(off: nat, part: seq<byte>)
      requires off + |part| <= mapped.Length
      modifies mapped
      ensures mapped[..] == Overwrite(old(mapped[..]), off, part)
      ensures old(Survives()) && |Image(log)| <= off ==> Survives()
    {
      hide Stored, Image;
      ghost var before := mapped[..];
      if Survives() && |Image(log)| <= off {
        StoredOverwrite(disk, before, log, off, part);
      }
      forall i | 0 <= i < |part| {
        mapped[off + i] := part[i];
      }
      assert mapped[..off] == before[..off];
      assert mapped[off..off + |part|] == part;
      assert mapped[off + |part|..] == before[off + |part|..];
      assert mapped[..] == mapped[..off] + mapped[off..off + |part|] + mapped[off + |part|..];
    }

    /** The growth check at the head of `append`. */
    method MakeRoom(frameSize: nat)
      requires Opened()
      modifies this`mapped, this`disk
      ensures Opened() && (mapped == old(mapped) || fresh(mapped))
      ensures mapped[..] == Resize(old(mapped[..]), SizeFor(old(State()), frameSize, page))
      ensures disk == Resize(old(disk), mapped.Length)
      ensures old(Survives()) && |Image(log)| <= mapped.Length ==> Survives()
    {
      hide Resize, AlignToPage, Stored, Image;
      if writeOffset + frameSize > mapped.Length {
        var newSize := Max(mapped.Length * 2, writeOffset + frameSize + page);
        Grow(newSize);
      } else {
        ResizeSame(mapped[..]);
        ResizeSame(disk);
      }
    }

    /** The four copies that make a frame at `off`. */
    method WriteFrame(off: nat, data: Payload)
      requires Opened() && off + 12 + |data| <= mapped.Length
      modifies mapped, table, table.entries
      ensures Opened()
      ensures mapped[..] == Overwrite(old(mapped[..]), off, Frame(data))
      ensures old(Survives()) && |Image(log)| <= off ==> Survives()
    {
      hide Frame, Overwrite, U32, WordBytes, IeeeCrc, Stored, Image;
      ghost var img := mapped[..];
      FrameInFourCopies(img, off, data);
      Copy(off, U32(WAL_MAGIC));
      assert mapped[..] == Overwrite(img, off, Frame(data)[..4]);
      Copy(off + 4, U32(|data|));
      assert mapped[..] == Overwrite(img, off, Frame(data)[..8]);
      Copy(off + 8, data);
      assert mapped[..] == Overwrite(img, off, Frame(data)[..8 + |data|]);
      ghost var partial := mapped[..];
      var crc := table.Compute(data);
      assert mapped[..] == partial;
      Copy(off + 8 + |data|, WordBytes(crc));
    }

    /** `sync_range`: forces whole pages, from the one `offset` lies in, to storage. */
    method SyncRange(offset: nat, length: nat)
      requires Opened() && offset < TWO_64 && offset + length <= mapped.Length
      modifies this`disk
      ensures Opened()
      ensures disk == Synced(old(disk), mapped[..], PageStart(offset, page), offset + length)
      ensures old(disk)[..offset] == mapped[..offset] ==> disk[..offset + length] == mapped[..offset + length]
      ensures old(Survives()) ==> Survives()
    {
      hide And, PageStart, PowerOfTwoPage, Stored, Image;
      if Survives() {
        StoredSync(disk, mapped[..], log, PageStart(offset, page), offset + length);
      }
      PageStartMask(offset, page, pageBits);
      var alignedOffset := And(offset, Not64(page - 1));
      var alignedLength := length + (offset - alignedOffset);
      SyncedUpTo(disk, mapped[..], alignedOffset, offset, offset + length);
      disk := Synced(disk, mapped[..], alignedOffset, alignedOffset + alignedLength);
    }

    /**
      The frame written and forced to storage; the append position has not moved yet. After each
      step the log survives a crash.
     */
    method Store(data: Payload)
      requires Valid() && Room(State(), data, page)
      modifies this`mapped, this`disk, mapped, table, table.entries
      ensures Opened() && (mapped == old(mapped) || fresh(mapped))
      ensures WalState(mapped[..], writeOffset + |Frame(data)|) == WalRecovery.Append(old(State()), data, page)
      ensures mapped[..writeOffset + |Frame(data)|] == Image(log + [data])
      ensures writeOffset + |Frame(data)| == |Image(log + [data])| <= mapped.Length
      ensures old(Durable()) ==> disk[..writeOffset + |Frame(data)|] == mapped[..writeOffset + |Frame(data)|]
      ensures old(Durable()) ==> Survives()
    {
      hide Frame, AlignToPage, Resize, Overwrite, Image, IeeeCrc, Synced, Room, AllFit, SizeFor;
      ghost var before := State();
      GrownEnough(before, data, page, pageBits);
      RoomBound(before, data, page);
      MakeRoom(|data| + 12);
      assert old(Durable()) ==> Survives();
      ghost var grown := mapped[..];
      KeptByResize(old(disk), |disk|, log);
      WriteFrame(writeOffset, data);
      assert old(Durable()) ==> Survives();
      AppendKeepsLog(grown, before, log, data);
      SyncRange(writeOffset, |data| + 12);
    }

    /**
      Writes one frame behind the log, growing the mapping when it does not fit, forces it to
      storage and only then moves the append position.
     */
    method Append(data: Payload) returns (number: nat)
      requires Valid()
      requires |data| <= MAX_PAYLOAD && Room(State(), data, page)
      modifies this, mapped, table, table.entries
      ensures Valid() && (mapped == old(mapped) || fresh(mapped))
      ensures old(Durable()) ==> Durable()
      ensures log == old(log) + [data]
      ensures number == sequence == old(sequence) + 1
      ensures State() == WalRecovery.Append(old(State()), data, page)
    {
      hide Frame, WalRecovery.Append, Room, Image;
      Store(data);
      writeOffset := writeOffset + 12 + |data|;
      sequence := sequence + 1;
      log := log + [data];
      return sequence;
    }

    /** The checks of one pass of the replay loop; `next` is where the following frame would start. */
    method ReadAt(offset: nat) returns (valid: bool, payload: Payload, next: nat)
      requires Opened() && offset + 12 <= mapped.Length && HeaderInRange(mapped[..], offset)
      modifies table, table.entries
      ensures Opened() && mapped[..] == old(mapped[..])
      ensures valid <==> ReadFrame(mapped[..], offset).Found?
      ensures valid ==> ReadFrame(mapped[..], offset) == Found(payload, next)
    {
      hide IeeeCrc, BytesWord, Unsigned;
      valid, payload, next := false, [], offset;
      ghost var img := mapped[..];
      FrameAdvances(img, offset);
      var magic := Unsigned(mapped[offset..offset + 4]);
      assert mapped[offset..offset + 4] == img[offset..offset + 4];
      if magic == WAL_MAGIC {
        var dataSize := Unsigned(mapped[offset + 4..offset + 8]);
        assert mapped[offset + 4..offset + 8] == img[offset + 4..offset + 8];
        var frameSize := FrameSize32(dataSize);
        if offset + frameSize <= mapped.Length {
          FrameSizeExactAt(img, offset);
          payload := mapped[offset + 8..offset + 8 + dataSize];
          assert payload == img[offset + 8..offset + 8 + dataSize];
          var storedCrc := BytesWord(mapped[offset + 8 + dataSize..offset + 12 + dataSize]);
          assert mapped[offset + 8 + dataSize..offset + 12 + dataSize] ==
                 img[offset + 8 + dataSize..offset + 12 + dataSize];
          var computedCrc := table.Compute(payload);
          assert mapped[..] == img;
          valid, next := storedCrc == computedCrc, offset + frameSize;
        }
      }
    }

    /**
      Scans from the start and delivers every valid frame, numbered from 1; appending resumes where
      the scan stopped.
     */
    method Replay() returns (delivered: seq<(nat, Payload)>, replayed: nat)
      requires Opened() && Scan(mapped[..], 0).inRange
      modifies this`writeOffset, this`sequence, this`log, table, table.entries
      ensures Valid() && mapped[..] == old(mapped[..])
      ensures Recovered(log, writeOffset, true) == Scan(mapped[..], 0)
      ensures replayed == sequence == |delivered| == |Scan(mapped[..], 0).frames|
      ensures forall i :: 0 <= i < |delivered| ==>
                delivered[i].0 == i + 1 && delivered[i].1 == Scan(mapped[..], 0).frames[i]
      ensures disk == mapped[..] ==> Durable()
    {
      hide Frame, Image, Scan, ReadFrame, HeaderInRange;
      ghost var img := mapped[..];
      ghost var frames := [];
      var offset := 0;
      delivered, replayed := [], 0;
      assert frames + Scan(img, 0).frames == Scan(img, 0).frames;
      var more := true;
      while more && offset + 12 <= mapped.Length
        invariant Opened() && mapped[..] == img && offset <= |img|
        invariant Scan(img, 0) == Recovered(frames + Scan(img, offset).frames, Scan(img, offset).end, true)
        invariant Scan(img, offset).inRange
        invariant !more ==> Scan(img, offset) == Recovered([], offset, true)
        invariant delivered == Numbered(frames) && replayed == |frames|
        decreases mapped.Length - offset, more
      {
        ScanStep(img, offset);
        FrameAdvances(img, offset);
        var valid, payload, next := ReadAt(offset);
        if valid {
          replayed := replayed + 1;
          delivered := delivered + [(replayed, payload)];
          assert frames + ([payload] + Scan(img, next).frames) == frames + [payload] + Scan(img, next).frames;
          frames := frames + [payload];
          offset := next;
        } else {
          more := false;
        }
      }
      ScanStep(img, offset);
      assert frames + [] == frames;
      writeOffset := offset;
      sequence := replayed;
      log := frames;
      ScanFinds(img, 0);
      assert log == Scan(img, 0).frames;
    }
  }

  /**
    From a new file of any size, after any run of appends and reopenings: what replay delivers is the
    payloads appended, in order, numbered from 1.
   */
  lemma {:induction false} DeliveredAfterRun(size: nat, ops: seq<Op>, page: nat, k: nat)
    requires PowerOfTwoPage(page, k) && page <= TWO_64 && page > 0
    requires RunAllowed(WalState(Zeros(size), 0), ops, page)
    ensures var image := Run(WalState(Zeros(size), 0), ops, page).image;
            var delivered := Numbered(Scan(image, 0).frames);
            && Scan(image, 0).inRange && |delivered| == |Appended(ops)|
            && forall i :: 0 <= i < |delivered| ==> delivered[i].0 == i + 1 && delivered[i].1 == Appended(ops)[i]
  {
    hide Scan, Run, RunAllowed, Clean;
    FreshIsClean(size);
    assert Resize([], size) == Zeros(size);
    RunClean(WalState(Zeros(size), 0), [], ops, page, k);
    assert [] + Appended(ops) == Appended(ops);
  }

  /**
    Opening the file of a clean log again, at any size that holds it, and replaying it: exactly the
    payloads appended are delivered, numbered from 1, and appending goes on where it stopped.
   */
  method Reopen(file: WriteAheadLog, size: nat) returns (log: WriteAheadLog, delivered: seq<(nat, Payload)>)
    requires file.Valid() && Clean(file.State(), file.log)
    requires file.writeOffset <= size && Max(size, file.page) + file.page <= TWO_64
    modifies file.table, file.table.entries
    ensures fresh(log) && log.Valid() && log.Durable() && Clean(log.State(), log.log)
    ensures log.log == old(file.log) && log.sequence == old(file.sequence) && log.writeOffset == old(file.writeOffset)
    ensures |delivered| == |old(file.log)|
    ensures forall i :: 0 <= i < |delivered| ==> delivered[i].0 == i + 1 && delivered[i].1 == old(file.log)[i]
  {
    hide Frame, Image, Scan, ReadFrame, HeaderInRange, AlignToPage, Clean, Resize, Stored;
    ReopenClean(file.State(), file.log, size, file.page, file.pageBits);
    ghost var before, payloads := file.State(), file.log;
    log := new WriteAheadLog(file.mapped[..], size, file.page, file.pageBits, file.table);
    ghost var image := log.mapped[..];
    assert Scan(image, 0) == Recovered(payloads, before.offset, true);
    var replayed;
    delivered, replayed := log.Replay();
    assert log.mapped[..] == image;
  }

  lemma {:induction false} ScanStep(img: seq<byte>, off: nat)
    requires Scan(img, off).inRange
    ensures HeaderInRange(img, off)
    ensures off + 12 > |img| ==> Scan(img, off) == Recovered([], off, true)
    ensures !ReadFrame(img, off).Found? ==> Scan(img, off) == Recovered([], off, true)
    ensures ReadFrame(img, off).Found? ==>
              var rest := Scan(img, ReadFrame(img, off).next);
              Scan(img, off) == Recovered([ReadFrame(img, off).payload] + rest.frames, rest.end, rest.inRange)
  {}

  /** A sync behind bytes storage already agrees on makes it agree up to the end of the sync. */
  lemma SyncedUpTo(disk: seq<byte>, mem: seq<byte>, from: nat, offset: nat, end: nat)
    requires from <= offset <= end <= |mem| == |disk|
    ensures disk[..offset] == mem[..offset] ==> Synced(disk, mem, from, end)[..end] == mem[..end]
  {
    if disk[..offset] == mem[..offset] {
      assert disk[..from] == disk[..offset][..from] == mem[..offset][..from] == mem[..from];
      assert mem[..from] + mem[from..end] == mem[..end];
      assert Synced(disk, mem, from, end)[..end] == disk[..from] + mem[from..end];
    }
  }

  lemma {:induction false} KeptByResize(img: seq<byte>, size: nat, log: seq<Payload>)
    ensures |Image(log)| <= |img| && |Image(log)| <= size && img[..|Image(log)|] == Image(log) ==>
              Resize(img, size)[..|Image(log)|] == Image(log)
  {}

  lemma RoomBound(w: WalState, p: Payload, page: nat)
    requires Room(w, p, page)
    ensures w.offset < TWO_64
  {}

  lemma ResizeSame(img: seq<byte>)
    ensures Resize(img, |img|) == img
  {}
}
