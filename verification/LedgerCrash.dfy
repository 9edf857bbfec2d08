/** What a crash in any reachable state of the ledger leaves behind, and what is recovered from it. */
module LedgerCrash {
  import opened Bytes
  import opened Types
  import opened Codec
  import opened WireCodec
  import opened RecordCodec
  import opened Accounts
  import opened Ledger
  import opened LedgerRuns
  import opened WalFormat
  import WalRecovery

  ghost predicate AllFits(log: seq<WalRecord>) {
    forall i :: 0 <= i < |log| ==> Fits(log[i])
  }

  ghost function Payloads(log: seq<WalRecord>): (r: seq<Payload>)
    requires AllFits(log)
    ensures |r| == |log|
    ensures AllFit(r)
    decreases |log|
  {
    if log == [] then [] else [WalPayload(log[0])] + Payloads(log[1..])
  }

  /** Reading recovered frames back as records. */
  function DecodeAll(frames: seq<Payload>): Option<seq<WalRecord>>
    decreases |frames|
  {
    if frames == [] then Some([])
    else
      match DecodePayload(frames[0])
      case None => None
      case Some(w) =>
        match DecodeAll(frames[1..])
        case None => None
        case Some(rest) => Some([w] + rest)
  }

  lemma {:induction false} StringsShort(w: WalRecord)
    requires Fits(w)
    ensures Storable(w)
  {
    hide StringField;
    var r := w.request;
    SixFields(r.debitAccountId, r.creditAccountId, r.idempotencyKey, r.description, r.currency, r.stripeChargeId);
  }

  lemma {:induction false} DecodePayloads(log: seq<WalRecord>)
    requires AllFits(log)
    ensures DecodeAll(Payloads(log)) == Some(log)
    decreases |log|
  {
    hide DecodePayload, WalPayload, Payloads, Fits;
    if log == [] {
      assert Payloads(log) == [];
    } else {
      FirstDecodes(log);
      DecodePayloads(log[1..]);
      assert Payloads(log)[1..] == Payloads(log[1..]);
      assert [log[0]] + log[1..] == log;
    }
  }

  lemma {:induction false} FirstDecodes(log: seq<WalRecord>)
    requires AllFits(log) && log != []
    ensures Fits(log[0]) && AllFits(log[1..])
    ensures Payloads(log) == [WalPayload(log[0])] + Payloads(log[1..])
    ensures DecodePayload(Payloads(log)[0]) == Some(log[0])
  {
    hide DecodePayload, WalPayload;
    StringsShort(log[0]);
    PayloadExact(WalPayload(log[0]), log[0]);
  }

  /** Whatever decodes is the payloads of what it decodes to. */
  lemma {:induction false} DecodeExact(frames: seq<Payload>, log: seq<WalRecord>)
    requires AllFits(log) && DecodeAll(frames) == Some(log)
    ensures frames == Payloads(log)
    decreases |frames|
  {
    hide DecodePayload, WalPayload;
    if frames != [] {
      PayloadExact(frames[0], log[0]);
      DecodeExact(frames[1..], log[1..]);
      assert frames == [frames[0]] + frames[1..];
    }
  }

  lemma {:induction false} PayloadsSnoc(log: seq<WalRecord>, w: WalRecord)
    requires AllFits(log) && Fits(w)
    ensures AllFits(log + [w]) && Payloads(log + [w]) == Payloads(log) + [WalPayload(w)]
    decreases |log|
  {
    hide WalPayload;
    if log == [] {
      assert [] + [w] == [w] && [w][1..] == [];
      assert [WalPayload(w)] + [] == [] + [WalPayload(w)];
    } else {
      assert (log + [w])[1..] == log[1..] + [w];
      PayloadsSnoc(log[1..], w);
    }
  }

  /** Behind the durable log no frame can be read, or only the one being appended, whole. */
  ghost predicate TailOk(img: seq<byte>, end: nat, m: Machine) {
    || NoFrameAt(img, end)
    || (m.phase.Appending? && Fits(m.phase.w) && WalRecovery.LastFrameAt(img, end, WalPayload(m.phase.w)))
  }

  /** The frames from before this engine and then its own. */
  ghost function Durable(base: seq<Payload>, m: Machine): seq<Payload>
    requires AllFits(m.books.log)
  {
    base + Payloads(m.books.log)
  }

  /**
    An image a crash may leave of storage and memory: each byte is the one last synced or the one in
    memory, and the file is not shorter than the log.
   */
  ghost predicate CrashImage(img: seq<byte>, disk: seq<byte>, mem: seq<byte>, log: seq<Payload>) {
    WalRecovery.Mixed(img, disk, mem) && |Image(log)| <= |img|
  }

  /** The table the log describes, given the current one. */
  lemma LoggedTable(m: Machine)
    requires BalancesOk(m) && LogOk(m) && StillValid(m)
    ensures Covers(m.books.accounts, m.books.log)
    ensures !m.phase.Appended? ==> Fold(ZeroBalances(m.books.accounts), m.books.log) == m.books.accounts
    ensures m.phase.Appended? ==> FoldsTo(m, m.books.log)
  {
    hide Fold, Transfer, WalPayload, AssetsCovered, AllPositive;
    if m.phase.Appended? {
      assert m.books.log == AppliedLog(m) + [m.phase.w];
      FoldSnoc(ZeroBalances(m.books.accounts), AppliedLog(m), m.phase.w);
    }
  }

  /** Folding `log` gives the current table with the pending transaction applied. */
  ghost predicate FoldsTo(m: Machine, log: seq<WalRecord>)
    requires m.phase.Appended? || m.phase.Appending?
  {
    var accounts, r := m.books.accounts, m.phase.w.request;
    && r.debitAccountId in accounts && r.creditAccountId in accounts && Covers(ZeroBalances(accounts), log)
    && Fold(ZeroBalances(accounts), log) ==
       Transfer(accounts, r.debitAccountId, r.creditAccountId, r.amountMinor)
  }

  /** The table once the frame under way is counted in. */
  lemma ArrivedTable(m: Machine)
    requires BalancesOk(m) && LogOk(m) && StillValid(m) && m.phase.Appending?
    ensures FoldsTo(m, m.books.log + [m.phase.w])
  {
    hide Fold, Transfer, WalPayload, AssetsCovered, AllPositive;
    CoversSnoc(m.books.accounts, m.books.log, m.phase.w);
    FoldSnoc(ZeroBalances(m.books.accounts), m.books.log, m.phase.w);
  }

  lemma CoversSnoc(accounts: Table, log: seq<WalRecord>, w: WalRecord)
    requires Covers(accounts, log) && w.request.debitAccountId in accounts && w.request.creditAccountId in accounts
    ensures Covers(accounts, log + [w])
  {}

  /**
    `records` are the log of `m`, or the log and the record under way; folded over zero balances
    they give the balances of `m`, or those after its one pending transaction; and they contain the
    transaction of every reply that reports success.
   */
  ghost predicate RecoveryOf(records: seq<WalRecord>, m: Machine) {
    var accounts := m.books.accounts;
    && (records == m.books.log || (m.phase.Appending? && records == m.books.log + [m.phase.w]))
    && Covers(ZeroBalances(accounts), records)
    && (if m.phase.Appended? || (m.phase.Appending? && records != m.books.log) then FoldsTo(m, records)
        else Fold(ZeroBalances(accounts), records) == accounts)
    && AcksIn(records, m)
  }

  ghost predicate AcksIn(records: seq<WalRecord>, m: Machine) {
    |m.answered| == |m.replies| &&
    forall k :: 0 <= k < |m.replies| && m.replies[k].status.Ok? ==>
      Acked(records, m.replies[k].transactionId, m.answered[k])
  }

  lemma RecoverDurable(m: Machine)
    requires BalancesOk(m) && LogOk(m) && StillValid(m) && AcksLogged(m)
    ensures RecoveryOf(m.books.log, m)
  {
    LoggedTable(m);
    assert AcksIn(m.books.log, m);
    hide Fold, FoldsTo, WalPayload, BalancesOk, LogOk, StillValid, AcksLogged, AcksIn;
  }

  lemma ArrivedAcks(m: Machine)
    requires AcksLogged(m) && m.phase.Appending?
    ensures AcksIn(m.books.log + [m.phase.w], m)
  {
    forall k | 0 <= k < |m.replies| && m.replies[k].status.Ok?
      ensures Acked(m.books.log + [m.phase.w], m.replies[k].transactionId, m.answered[k])
    {
      var req := m.answered[k];
      LoggedGrows(m.books.log, m.phase.w, m.replies[k].transactionId, req.idempotencyKey, req);
    }
  }

  lemma RecoverArrived(m: Machine)
    requires BalancesOk(m) && LogOk(m) && StillValid(m) && AcksLogged(m) && m.phase.Appending?
    ensures RecoveryOf(m.books.log + [m.phase.w], m)
  {
    ArrivedTable(m);
    ArrivedAcks(m);
    hide Fold, WalPayload, BalancesOk, LogOk, StillValid, AcksLogged, AcksIn, Transfer;
  }

  /** Replay stays in range and yields the earlier frames first; what follows decodes to a recovery of `m`. */
  ghost predicate RecoveryComplete(img: seq<byte>, base: seq<Payload>, m: Machine) {
    var frames := Scan(img, 0).frames;
    && Scan(img, 0).inRange
    && base <= frames
    && DecodeAll(frames[|base|..]).Some?
    && RecoveryOf(DecodeAll(frames[|base|..]).value, m)
  }

  lemma {:induction false} CrashTail(img: seq<byte>, disk: seq<byte>, mem: seq<byte>, log: seq<Payload>, p: Payload)
    requires WalRecovery.Stored(disk, mem, log) && CrashImage(img, disk, mem, log) && |p| <= MAX_PAYLOAD
    ensures log <= Scan(img, 0).frames
    ensures Scan(img, 0).inRange && Scan(img, 0).frames == log <==> NoFrameAt(img, |Image(log)|)
    ensures Scan(img, 0).inRange && Scan(img, 0).frames == log + [p] <==>
              WalRecovery.LastFrameAt(img, |Image(log)|, p)
  {
    hide Scan, NoFrameAt, Image, WalRecovery.Mixed, At, WalRecovery.LastFrameAt;
    WalRecovery.MixedKeepsLog(img, disk, mem, log);
    WalRecovery.TailExact(img, log, p);
  }

  lemma {:induction false} RecoverFrames(img: seq<byte>, base: seq<Payload>, m: Machine, log: seq<WalRecord>)
    requires AllFits(log) && Scan(img, 0).inRange && Scan(img, 0).frames == base + Payloads(log) && RecoveryOf(log, m)
    ensures RecoveryComplete(img, base, m)
  {
    hide Scan, RecoveryOf, WalPayload;
    assert Scan(img, 0).frames[|base|..] == Payloads(log);
    DecodePayloads(log);
  }

  lemma {:induction false} RecoveredFrames(img: seq<byte>, base: seq<Payload>, m: Machine, log: seq<WalRecord>)
    requires RecoveryComplete(img, base, m) && AllFits(log) && DecodeAll(Scan(img, 0).frames[|base|..]) == Some(log)
    ensures Scan(img, 0).frames == base + Payloads(log)
  {
    hide Scan, RecoveryOf, WalPayload, DecodeAll;
    DecodeExact(Scan(img, 0).frames[|base|..], log);
  }

  lemma RecordsOf(records: seq<WalRecord>, m: Machine)
    requires RecoveryOf(records, m)
    ensures records == m.books.log || (m.phase.Appending? && records == m.books.log + [m.phase.w])
  {}

  /** Replay returns the durable frames, or those and the one under way, and nothing else. */
  ghost predicate ReplayFits(img: seq<byte>, base: seq<Payload>, m: Machine)
    requires AllFits(m.books.log) && (m.phase.Appending? ==> Fits(m.phase.w))
  {
    && Scan(img, 0).inRange
    && (|| Scan(img, 0).frames == Durable(base, m)
        || (m.phase.Appending? && Scan(img, 0).frames == Durable(base, m) + [WalPayload(m.phase.w)]))
  }

  lemma {:induction false} DurableSnoc(base: seq<Payload>, m: Machine)
    requires AllFits(m.books.log) && m.phase.Appending? && Fits(m.phase.w)
    ensures AllFits(m.books.log + [m.phase.w])
    ensures Durable(base, m) + [WalPayload(m.phase.w)] == base + Payloads(m.books.log + [m.phase.w])
  {
    hide WalPayload;
    PayloadsSnoc(m.books.log, m.phase.w);
  }

  lemma {:induction false} RecoverySound(img: seq<byte>, base: seq<Payload>, m: Machine)
    requires AllFits(m.books.log) && (m.phase.Appending? ==> Fits(m.phase.w)) && RecoveryComplete(img, base, m)
    ensures ReplayFits(img, base, m)
  {
    var records := DecodeAll(Scan(img, 0).frames[|base|..]).value;
    RecordsOf(records, m);
    hide RecoveryOf, Scan, Payloads, WalPayload, DecodeAll, AllFits, Fits;
    if records != m.books.log {
      DurableSnoc(base, m);
    }
    RecoveredFrames(img, base, m, records);
  }

  lemma {:induction false} RecoveryAttained(img: seq<byte>, base: seq<Payload>, m: Machine)
    requires BalancesOk(m) && LogOk(m) && StillValid(m) && AcksLogged(m)
    requires AllFits(m.books.log) && (m.phase.Appending? ==> Fits(m.phase.w)) && ReplayFits(img, base, m)
    ensures RecoveryComplete(img, base, m)
  {
    hide RecoveryComplete, RecoveryOf, Scan, Payloads, WalPayload, AllFits, Fits;
    hide LogOk, BalancesOk, StillValid, AcksLogged;
    if Scan(img, 0).frames == Durable(base, m) {
      RecoverDurable(m);
      RecoverFrames(img, base, m, m.books.log);
    } else {
      RecoverArrived(m);
      DurableSnoc(base, m);
      RecoverFrames(img, base, m, m.books.log + [m.phase.w]);
    }
  }

  /** Recovery is complete exactly when replay returns the durable frames, or those and the one under way. */
  lemma {:induction false} RecoveryExact(img: seq<byte>, base: seq<Payload>, m: Machine)
    requires BalancesOk(m) && LogOk(m) && StillValid(m) && AcksLogged(m)
    requires AllFits(m.books.log) && (m.phase.Appending? ==> Fits(m.phase.w))
    ensures RecoveryComplete(img, base, m) <==> ReplayFits(img, base, m)
  {
    hide *;
    if RecoveryComplete(img, base, m) {
      RecoverySound(img, base, m);
    } else if ReplayFits(img, base, m) {
      RecoveryAttained(img, base, m);
    }
  }

  lemma PendingFits(m: Machine)
    requires LogOk(m) && m.phase.Appending?
    ensures Fits(m.phase.w)
  {}

  /**
    Write-ahead refinement at every crash point of every run, for every mixture of storage and
    memory and every kind of bytes behind the log. Replay always returns the frames from before this
    engine and then this engine's, so no acknowledged transaction is missing. Decoding and folding
    what it returns over zero balances gives exactly the balances in memory, or those plus the one
    transaction that was between its frame and its application, if and only if behind the log no
    frame can be read, or only the one under way.
   */
  lemma {:induction false} CrashRecovery(es: seq<Event>, base: seq<Payload>, disk: seq<byte>, mem: seq<byte>,
                                         img: seq<byte>)
    requires RunOk(START, es) && AllFits(Run(START, es).books.log)
    requires WalRecovery.Stored(disk, mem, Durable(base, Run(START, es)))
    requires CrashImage(img, disk, mem, Durable(base, Run(START, es)))
    ensures Durable(base, Run(START, es)) <= Scan(img, 0).frames
    ensures RecoveryComplete(img, base, Run(START, es)) <==>
              TailOk(img, |Image(Durable(base, Run(START, es)))|, Run(START, es))
  {
    StartInv();
    RunInv(START, es);
    var m := Run(START, es);
    hide Scan, NoFrameAt, At, Frame, Image, WalPayload, CrashImage, RecoveryComplete, Run, RunOk, Payloads;
    if m.phase.Appending? {
      PendingFits(m);
    }
    RecoveryExact(img, base, m);
    hide LogOk, BalancesOk, StillValid, AcksLogged, KeysOk, IdsOk, LogIdsOk, WalRecovery.Stored;
    var p := if m.phase.Appending? then WalPayload(m.phase.w) else [];
    CrashTail(img, disk, mem, Durable(base, m), p);
  }

  /** The log of every reachable state is one that frames can hold. */
  lemma {:induction false} LogAlwaysFits(es: seq<Event>)
    requires RunOk(START, es)
    ensures AllFits(Run(START, es).books.log)
  {
    StartInv();
    RunInv(START, es);
  }

  /** With zeros behind the log in storage and memory, recovery from any mixture of the two is complete. */
  lemma {:induction false} QuietCrash(es: seq<Event>, base: seq<Payload>, disk: seq<byte>, mem: seq<byte>,
                                      img: seq<byte>)
    requires RunOk(START, es) && AllFits(Run(START, es).books.log)
    requires WalRecovery.Stored(disk, mem, Durable(base, Run(START, es)))
    requires CrashImage(img, disk, mem, Durable(base, Run(START, es)))
    requires WalRecovery.AllZero(disk[|Image(Durable(base, Run(START, es)))|..])
    requires WalRecovery.AllZero(mem[|Image(Durable(base, Run(START, es)))|..])
    ensures RecoveryComplete(img, base, Run(START, es))
  {
    hide WalPayload, WalRecovery.Mixed, NoFrameAt, RecoveryComplete, Run, RunOk;
    CrashRecovery(es, base, disk, mem, img);
    WalRecovery.MixedZeros(img, disk, mem, |Image(Durable(base, Run(START, es)))|);
  }
}
