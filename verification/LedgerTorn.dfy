/** A crash in the middle of the ledger's append: what is recovered at every number of bytes written. */
module LedgerTorn {
  import opened Masks
  import opened Bytes
  import opened Types
  import opened RecordCodec
  import opened Accounts
  import opened Ledger
  import opened LedgerRuns
  import opened LedgerTheorems
  import opened LedgerCrash
  import opened WalFormat
  import opened TornAppend
  import WalRecovery

  /** The payload being appended. */
  function Pending(m: Machine): Payload
    requires m.phase.Appending? && Fits(m.phase.w)
  {
    WalPayload(m.phase.w)
  }

  /** The file is a clean log of everything durable, with room for the frame under way. */
  ghost predicate ReadyFor(w: WalRecovery.WalState, base: seq<Payload>, m: Machine)
    requires AllFits(m.books.log) && m.phase.Appending? && Fits(m.phase.w)
  {
    WalRecovery.Clean(w, Durable(base, m)) && w.offset + |Frame(Pending(m))| <= |w.image|
  }

  /** The file after `k` bytes of the frame. */
  function TornFile(w: WalRecovery.WalState, p: Payload, k: nat): seq<byte>
    requires k <= |Frame(p)| && w.offset + |Frame(p)| <= |w.image|
  {
    WalRecovery.Overwrite(w.image, w.offset, Frame(p)[..k])
  }

  /** The invariant of every run covers the frame under way. */
  lemma {:induction false} PendingAlwaysFits(es: seq<Event>)
    requires RunOk(START, es)
    ensures AllFits(Run(START, es).books.log)
    ensures Run(START, es).phase.Appending? ==> Fits(Run(START, es).phase.w)
  {
    StartInv();
    RunInv(START, es);
  }

  /**
    In every run and after every number of bytes of the frame under way: replay returns the durable
    frames and beyond them exactly what the torn frame reads as; and recovery is complete if and only
    if that is nothing or the payload under way.
   */
  lemma {:induction false} TornCrash(es: seq<Event>, base: seq<Payload>, w: WalRecovery.WalState, k: nat)
    requires RunOk(START, es) && AllFits(Run(START, es).books.log)
    requires Run(START, es).phase.Appending? && Fits(Run(START, es).phase.w)
    requires ReadyFor(w, base, Run(START, es)) && k <= |Frame(Pending(Run(START, es)))|
    ensures var m := Run(START, es);
            var img, p := TornFile(w, Pending(m), k), Pending(m);
            && Scan(img, 0) == Recovered(Durable(base, m) + Extra(p, k), |Image(Durable(base, m) + Extra(p, k))|, true)
            && (RecoveryComplete(img, base, m) <==> Harmless(p, k))
  {
    StartInv();
    RunInv(START, es);
    var m := Run(START, es);
    hide Run, RunOk, Frame, Image, Scan, Payloads, RecoveryComplete, Extra, WalPayload, WalRecovery.Clean;
    var p := Pending(m);
    TornByAppend(w, Durable(base, m), p, k);
    TornExact(TornFile(w, p, k), Durable(base, m), p, k);
    RecoveryExact(TornFile(w, p, k), base, m);
    hide BalancesOk, LogOk, StillValid, AcksLogged, IdsOk, LogIdsOk, KeysOk;
    SameEnd(Durable(base, m), Extra(p, k), [p]);
  }

  lemma SameEnd(a: seq<Payload>, x: seq<Payload>, y: seq<Payload>)
    ensures a + x == a <==> x == []
    ensures a + x == a + y <==> x == y
  {
    assert (a + x)[|a|..] == x && (a + y)[|a|..] == y;
  }

  /** Storage that still holds the old log and memory that holds the whole frame can leave every torn file. */
  lemma TornIsMixed(w: WalRecovery.WalState, log: seq<Payload>, p: Payload, k: nat)
    requires WalRecovery.Clean(w, log) && k <= |Frame(p)| && w.offset + |Frame(p)| <= |w.image|
    ensures WalRecovery.Stored(w.image, TornFile(w, p, |Frame(p)|), log)
    ensures CrashImage(TornFile(w, p, k), w.image, TornFile(w, p, |Frame(p)|), log)
  {
    hide Frame, Image;
    var whole := TornFile(w, p, |Frame(p)|);
    assert whole[..w.offset] == w.image[..w.offset];
  }

  // ---- A run that is not recovered ------------------------------------------------------------

  /** Two accounts are created and the engine thread has drawn up a transaction between them. */
  function PayingRun(payer: Text, payee: Text, amount: int): seq<Event> {
    Openings(payer, payee) + [Pop(FundingRequest(amount)), Check, Stamp(0, 0)]
  }

  lemma {:induction false} PayingSteps(m: Machine, req: TransactionRequest)
    requires m.phase.Idle? && IsInt64(req.amountMinor) && Commits(m.books, req) && m.books.counter < TWO_64
    requires |WalPayload(WalRecord(NIL_UUID, req, 0))| <= MAX_PAYLOAD
    ensures var es := [Pop(req), Check, Stamp(0, 0)];
            && RunOk(m, es)
            && Run(m, es).phase.Appending? && Run(m, es).books.log == m.books.log
  {
    hide WalPayload, TransactionId, Message;
    var m1 := Next(m, Pop(req));
    var m2 := Next(m1, Check);
    var m3 := Next(m2, Stamp(0, 0));
    hide Run, RunOk, Validate;
    NoSteps(m3);
    RunFirst(m2, Stamp(0, 0), []);
    RunFirst(m1, Check, [Stamp(0, 0)]);
    RunFirst(m, Pop(req), [Check, Stamp(0, 0)]);
  }

  lemma {:induction false} PayingReaches(payer: Text, payee: Text, amount: int)
    requires payer != payee && 0 < amount && IsInt64(amount)
    ensures var es := PayingRun(payer, payee, amount);
            && RunOk(START, es)
            && Run(START, es).phase.Appending? && Run(START, es).books.log == []
  {
    var req := FundingRequest(amount);
    var m := Machine(FundingBooks(payer, payee), Idle, IoIdle, [], []);
    FundingPays(payer, payee, amount);
    FundingOpens(payer, payee);
    FundingPayload(amount);
    hide Run, RunOk, Commits, WalPayload, AccountId, Ascii;
    PayingSteps(m, req);
    RunAppend(START, Openings(payer, payee), [Pop(req), Check, Stamp(0, 0)]);
  }

  lemma WalPayloadNotEmpty(w: WalRecord)
    requires IsInt64(w.request.amountMinor) && IsInt64(w.timestamp)
    ensures WalPayload(w) != []
  {}

  /**
    The engine's first append to a new file of any size with room for it, cut off behind the magic:
    replay returns an empty payload that no transaction wrote, and recovery is not complete.
   */
  lemma {:induction false} RecoveryFails(payer: Text, payee: Text, amount: int, size: nat)
    requires payer != payee && 0 < amount && IsInt64(amount)
    ensures var es := PayingRun(payer, payee, amount);
            && RunOk(START, es)
            && var m := Run(START, es);
            && m.phase.Appending? && Fits(m.phase.w) && AllFits(m.books.log)
            && (|Frame(Pending(m))| <= size ==>
                  var w := WalRecovery.WalState(Zeros(size), 0);
                  && ReadyFor(w, [], m)
                  && Scan(TornFile(w, Pending(m), 4), 0).frames == [[]]
                  && !RecoveryComplete(TornFile(w, Pending(m), 4), [], m))
  {
    var es := PayingRun(payer, payee, amount);
    PayingReaches(payer, payee, amount);
    PendingAlwaysFits(es);
    hide PayingRun, Run, RunOk, WalPayload, RecoveryComplete, Extra, Frame, Scan, TornSize;
    var m := Run(START, es);
    if |Frame(Pending(m))| <= size {
      var w := WalRecovery.WalState(Zeros(size), 0);
      assert Durable([], m) == [] && w.image[..0] == [];
      TornCrash(es, [], w, 4);
      NoSizeYet(Pending(m));
      EmptyFrame(Pending(m), 4);
      WalPayloadNotEmpty(m.phase.w);
      assert [] + Extra(Pending(m), 4) == Extra(Pending(m), 4);
    }
  }
}
