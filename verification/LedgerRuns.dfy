/** Every step of either thread keeps the ledger's invariant, so every run does. */
module LedgerRuns {
  import opened Masks
  import opened Bytes
  import opened Types
  import opened RecordCodec
  import opened Accounts
  import opened Ledger
  import WalFormat

  // ---- Identifiers ----------------------------------------------------------------------------

  ghost predicate IdDrawn(id: Text, counter: nat) {
    exists c: nat :: c < counter && id == AccountId(c)
  }

  lemma FreshId(accounts: Table, counter: nat)
    requires forall id :: id in accounts ==> IdDrawn(id, counter)
    ensures AccountId(counter) !in accounts
  {
    if AccountId(counter) in accounts {
      var c: nat :| c < counter && AccountId(counter) == AccountId(c);
      AccountIdInjective(counter, c);
    }
  }

  lemma DrawIds(m: Machine, e: Event)
    requires IdsOk(m) && Enabled(m, e) && e.Draw?
    ensures IdsOk(Next(m, e))
  {
    hide AccountId;
    assert forall id :: id in m.books.accounts ==> IdDrawn(id, m.books.counter);
    FreshId(m.books.accounts, m.books.counter);
    var c := m.books.counter;
    assert c < m.books.counter + 1 && Next(m, e).io.id == AccountId(c);
  }

  lemma InsertIds(m: Machine)
    requires IdsOk(m) && Enabled(m, Insert)
    ensures IdsOk(Next(m, Insert))
  {
    hide AccountId;
  }

  lemma ApplyIds(m: Machine)
    requires IdsOk(m) && Enabled(m, Apply)
    ensures IdsOk(Next(m, Apply))
  {
    hide AccountId;
    var r := m.phase.w.request;
    forall id | id in m.books.accounts
      ensures var after := Next(m, Apply).books.accounts;
              after[id].id == m.books.accounts[id].id && after[id].name == m.books.accounts[id].name
    {
      TransferEffect(m.books.accounts, r.debitAccountId, r.creditAccountId, r.amountMinor, id);
    }
  }

  lemma IdsStep(m: Machine, e: Event)
    requires IdsOk(m) && Enabled(m, e)
    ensures IdsOk(Next(m, e))
  {
    if e.Draw? {
      DrawIds(m, e);
    } else if e.Insert? {
      InsertIds(m);
    } else if e.Apply? {
      ApplyIds(m);
    } else {
      SameAccounts(m, e);
      hide AccountId, Next, Enabled;
    }
  }

  lemma SameAccounts(m: Machine, e: Event)
    requires Enabled(m, e) && !e.Draw? && !e.Insert? && !e.Apply?
    ensures Next(m, e).books.accounts == m.books.accounts && Next(m, e).books.counter >= m.books.counter
    ensures Next(m, e).io == m.io
  {
    hide WalPayload, TransactionId, AccountId, Message, Validate;
  }

  lemma LogIdsStep(m: Machine, e: Event)
    requires LogIdsOk(m) && Enabled(m, e)
    ensures LogIdsOk(Next(m, e))
  {
    hide CounterOf, TransactionId;
    if e.Stamp? {
      CounterOfId(e.clock, m.books.counter);
    }
  }

  // ---- The log and validity -------------------------------------------------------------------

  lemma PayloadLength(id: Uuid, other: Uuid, req: TransactionRequest, wall: int)
    requires IsInt64(req.amountMinor) && IsInt64(wall)
    ensures |WalPayload(WalRecord(id, req, wall))| == |WalPayload(WalRecord(other, req, wall))|
  {}

  lemma RegisterStable(accounts: Table, create: CreateAccountRequest, id: Text)
    requires id !in accounts
    ensures var after := Register(accounts, create, id);
            after == accounts || after == Accounts.Insert(accounts, AccountInfo(id, create.name, create.kind, 0))
  {}

  lemma LogStep(m: Machine, e: Event)
    requires LogOk(m) && StillValid(m) && IdsOk(m) && Enabled(m, e)
    ensures LogOk(Next(m, e))
  {
    hide WalPayload, TransactionId, AccountId;
    if e.Stamp? {
      PayloadLength(NIL_UUID, TransactionId(e.clock, m.books.counter), m.phase.req, e.wall);
    }
  }

  lemma ValidStep(m: Machine, e: Event)
    requires StillValid(m) && IdsOk(m) && Enabled(m, e)
    ensures StillValid(Next(m, e))
  {
    hide TransactionId, AccountId, NameTaken;
    if e.Insert? {
      RegisterStable(m.books.accounts, m.io.req, m.io.id);
    }
  }

  // ---- Balances -------------------------------------------------------------------------------

  lemma InsertBalances(m: Machine)
    requires Inv(m) && Enabled(m, Insert)
    ensures BalancesOk(Next(m, Insert))
  {
    hide AcksLogged, KeysOk, FramesAnswered, LogIdsOk, Fold, LogOk, StillValid, NameTaken;
    var accounts := m.books.accounts;
    var info := AccountInfo(m.io.id, m.io.req.name, m.io.req.kind, 0);
    RegisterStable(accounts, m.io.req, m.io.id);
    FoldInsert(ZeroBalances(accounts), AppliedLog(m), info);
    assert ZeroBalances(Accounts.Insert(accounts, info)) == Accounts.Insert(ZeroBalances(accounts), info);
  }

  /** Applying a valid transaction adds its frame to the fold. */
  lemma {:induction false} ApplyFold(accounts: Table, log: seq<WalRecord>, w: WalRecord)
    requires AssetsCovered(accounts) && Covers(accounts, log) && accounts == Fold(ZeroBalances(accounts), log)
    requires Validate(accounts, w.request).Ok?
    ensures var r := w.request;
            var after := Transfer(accounts, r.debitAccountId, r.creditAccountId, r.amountMinor);
            AssetsCovered(after) && Covers(after, log + [w]) && after == Fold(ZeroBalances(after), log + [w])
  {
    var r := w.request;
    TransferKeepsCover(accounts, r);
    ZeroTransfer(accounts, r.debitAccountId, r.creditAccountId, r.amountMinor);
    hide Fold, Transfer, ZeroBalances, AssetsCovered;
    FoldSnoc(ZeroBalances(accounts), log, w);
  }

  lemma ApplyBalances(m: Machine)
    requires BalancesOk(m) && LogOk(m) && StillValid(m) && Enabled(m, Apply)
    ensures BalancesOk(Next(m, Apply))
  {
    hide Fold, Transfer, ZeroBalances, AssetsCovered, Covers, Validate, WalPayload, AllPositive;
    ApplyFold(m.books.accounts, AppliedLog(m), m.phase.w);
    assert m.books.log == AppliedLog(m) + [m.phase.w];
  }

  lemma SameBalances(m: Machine, e: Event)
    requires Enabled(m, e) && !e.Insert? && !e.Apply? && (m.phase.Appended? ==> m.books.log != [])
    ensures Next(m, e).books.accounts == m.books.accounts && AppliedLog(Next(m, e)) == AppliedLog(m)
  {
    hide WalPayload, TransactionId, AccountId, Message, Validate;
    if e.Append? {
      assert (m.books.log + [m.phase.w])[..|m.books.log|] == m.books.log;
    }
  }

  lemma BalancesStep(m: Machine, e: Event)
    requires Inv(m) && Enabled(m, e)
    ensures BalancesOk(Next(m, e))
  {
    if e.Insert? {
      InsertBalances(m);
    } else if e.Apply? {
      ApplyBalances(m);
    } else {
      hide AcksLogged, KeysOk, FramesAnswered, LogIdsOk, Fold, IdsOk, StillValid, Next, Enabled, AppliedLog;
      SameBalances(m, e);
    }
  }

  // ---- Acknowledgements -----------------------------------------------------------------------

  lemma LoggedGrows(log: seq<WalRecord>, w: WalRecord, id: Uuid, key: Text, req: TransactionRequest)
    ensures LoggedAs(log, id, req) ==> LoggedAs(log + [w], id, req)
    ensures LoggedFor(log, id, key) ==> LoggedFor(log + [w], id, key)
  {
    if LoggedAs(log, id, req) {
      var i :| 0 <= i < |log| && log[i].transactionId == id && log[i].request == req;
      assert (log + [w])[i] == log[i];
    }
    if LoggedFor(log, id, key) {
      var i :| 0 <= i < |log| && log[i].transactionId == id && log[i].request.idempotencyKey == key;
      assert (log + [w])[i] == log[i];
    }
  }

  lemma AppendAcks(m: Machine)
    requires AcksLogged(m) && Enabled(m, Append)
    ensures AcksLogged(Next(m, Append))
  {
    hide LoggedAs, LoggedFor;
    var w, log := m.phase.w, m.books.log;
    forall i | 0 <= i < |m.replies| && m.replies[i].status.Ok?
      ensures Acked(log + [w], m.replies[i].transactionId, m.answered[i])
    {
      LoggedGrows(log, w, m.replies[i].transactionId, m.answered[i].idempotencyKey, m.answered[i]);
    }
    forall key | key in m.books.cache && m.books.cache[key].status.Ok?
      ensures LoggedFor(log + [w], m.books.cache[key].transactionId, key)
    {
      LoggedGrows(log, w, m.books.cache[key].transactionId, key, w.request);
    }
  }

  lemma AsImpliesFor(log: seq<WalRecord>, id: Uuid, req: TransactionRequest)
    requires LoggedAs(log, id, req)
    ensures LoggedFor(log, id, req.idempotencyKey)
  {}

  /** Applying changes balances and phase only. */
  lemma ApplyKeeps(m: Machine)
    requires Enabled(m, Apply)
    ensures var n := Next(m, Apply);
            && n.books == m.books.(accounts := n.books.accounts) && n.replies == m.replies && n.answered == m.answered
            && n.phase == Decided(m.phase.w.request, Ok, m.phase.w.transactionId)
  {
    hide Transfer;
  }

  lemma ApplyAcks(m: Machine)
    requires AcksLogged(m) && LogOk(m) && Enabled(m, Apply)
    ensures AcksLogged(Next(m, Apply))
  {
    hide Acked, LoggedFor;
    ApplyKeeps(m);
    var last := |m.books.log| - 1;
    assert m.books.log[last] == m.phase.w;
    hide Next, Enabled, LogOk;
  }

  lemma RespondAcks(m: Machine, e: Event)
    requires AcksLogged(m) && Enabled(m, e) && (e.Respond? || e.ReplyFromCache?)
    ensures AcksLogged(Next(m, e))
  {
    hide LoggedAs, LoggedFor, Message;
    if e.Respond? && m.phase.status.Ok? {
      AsImpliesFor(m.books.log, m.phase.id, m.phase.req);
    }
  }

  lemma AcksStep(m: Machine, e: Event)
    requires AcksLogged(m) && LogOk(m) && Enabled(m, e)
    ensures AcksLogged(Next(m, e))
  {
    if e.Append? {
      AppendAcks(m);
    } else if e.Apply? {
      ApplyAcks(m);
    } else if e.Respond? || e.ReplyFromCache? {
      RespondAcks(m, e);
    } else {
      hide Acked, LoggedAs, LoggedFor, LogOk;
    }
  }

  // ---- Keys -----------------------------------------------------------------------------------

  /** What gets into the log is not cached, so its key is new; by the time the next is checked, it is cached. */
  lemma KeysStep(m: Machine, e: Event)
    requires KeysOk(m) && Enabled(m, e)
    ensures KeysOk(Next(m, e))
  {
    hide WalPayload, TransactionId, AccountId, Message, Validate, Transfer, Register;
    var m' := Next(m, e);
    if e.Append? {
      forall i | 0 <= i < |m.books.log| && m.books.log[i].request.idempotencyKey != []
        ensures m.books.log[i].request.idempotencyKey in m.books.cache
      {
        assert KeySettled(m, i);
      }
    }
    forall i | 0 <= i < |m'.books.log|
      ensures KeySettled(m', i)
    {
      if i < |m.books.log| {
        assert KeySettled(m, i) && m'.books.log[i] == m.books.log[i];
      }
    }
  }

  // ---- Answers --------------------------------------------------------------------------------

  lemma AnsweredGrows(m: Machine, n: Machine, w: WalRecord)
    requires AnsweredOk(m, w) && |m.answered| == |m.replies| && |n.answered| == |n.replies|
    requires m.replies <= n.replies && m.answered <= n.answered
    ensures AnsweredOk(n, w)
  {
    var k :| 0 <= k < |m.replies| && m.replies[k].status.Ok?
             && m.replies[k].transactionId == w.transactionId && m.answered[k] == w.request;
    assert n.replies[k] == m.replies[k] && n.answered[k] == m.answered[k];
  }

  /** Replies are only added; the log grows by the record being appended, which then waits for its answer. */
  lemma RepliesGrow(m: Machine, e: Event)
    requires Enabled(m, e) && |m.answered| == |m.replies|
    ensures var n := Next(m, e);
            && m.replies <= n.replies && m.answered <= n.answered && |n.answered| == |n.replies|
            && (if e.Append? then n.books.log == m.books.log + [m.phase.w] && n.phase == Appended(m.phase.w)
                else n.books.log == m.books.log)
  {
    hide WalPayload, TransactionId, AccountId, Message, Validate, Transfer, Register;
  }

  /** What waits for its answer goes on waiting, or gets it. */
  lemma DueStep(m: Machine, e: Event, w: WalRecord)
    requires Enabled(m, e) && |m.answered| == |m.replies|
    requires Waiting(m, w)
    ensures AnsweredOk(Next(m, e), w) || Waiting(Next(m, e), w)
  {
    hide WalPayload, TransactionId, AccountId, Message, Validate, Transfer, Register;
    if e.Respond? {
      var n, k := Next(m, e), |m.replies|;
      assert n.replies[k].status.Ok? && n.replies[k].transactionId == w.transactionId && n.answered[k] == w.request;
    }
  }

  lemma AnswersStep(m: Machine, e: Event)
    requires FramesAnswered(m) && Enabled(m, e)
    ensures FramesAnswered(Next(m, e))
  {
    RepliesGrow(m, e);
    var n := Next(m, e);
    forall i | 0 <= i < |n.books.log|
      ensures AnswerDue(n, i)
    {
      if i < |m.books.log| {
        assert AnswerDue(m, i) && n.books.log[i] == m.books.log[i];
        if AnsweredOk(m, m.books.log[i]) {
          AnsweredGrows(m, n, m.books.log[i]);
        } else {
          DueStep(m, e, m.books.log[i]);
        }
      }
    }
    hide Next, Enabled, AnsweredOk;
  }

  // ---- Runs -----------------------------------------------------------------------------------

  lemma StepInv(m: Machine, e: Event)
    requires Inv(m) && Enabled(m, e)
    ensures Inv(Next(m, e))
  {
    IdsStep(m, e);
    LogIdsStep(m, e);
    LogStep(m, e);
    ValidStep(m, e);
    BalancesStep(m, e);
    AcksStep(m, e);
    KeysStep(m, e);
    AnswersStep(m, e);
    hide Next, IdsOk, LogIdsOk, LogOk, StillValid, BalancesOk, AcksLogged, KeysOk, FramesAnswered;
  }

  predicate RunOk(m: Machine, es: seq<Event>)
    decreases |es|
  {
    es == [] || (Enabled(m, es[0]) && RunOk(Next(m, es[0]), es[1..]))
  }

  function Run(m: Machine, es: seq<Event>): Machine
    requires RunOk(m, es)
    decreases |es|
  {
    if es == [] then m else Run(Next(m, es[0]), es[1..])
  }

  /** Every state of every run, under every interleaving of the two threads. */
  lemma {:induction false} RunInv(m: Machine, es: seq<Event>)
    requires Inv(m) && RunOk(m, es)
    ensures Inv(Run(m, es))
    decreases |es|
  {
    hide Inv, Next, Enabled;
    if es != [] {
      StepInv(m, es[0]);
      RunInv(Next(m, es[0]), es[1..]);
    }
  }

  // ---- Runs without interference --------------------------------------------------------------

  lemma {:induction false} RunFirst(m: Machine, e: Event, es: seq<Event>)
    requires Enabled(m, e) && RunOk(Next(m, e), es)
    ensures RunOk(m, [e] + es) && Run(m, [e] + es) == Run(Next(m, e), es)
  {
    hide Enabled, Next;
    assert ([e] + es)[1..] == es;
  }

  lemma {:induction false} RunAppend(m: Machine, a: seq<Event>, b: seq<Event>)
    requires RunOk(m, a) && RunOk(Run(m, a), b)
    ensures RunOk(m, a + b) && Run(m, a + b) == Run(Run(m, a), b)
    decreases |a|
  {
    hide Enabled, Next;
    if a == [] {
      assert a + b == b;
    } else {
      assert (a + b)[1..] == a[1..] + b;
      RunAppend(Next(m, a[0]), a[1..], b);
    }
  }

  lemma {:induction false} CommitSteps(m: Machine, req: TransactionRequest, t: Readings)
    requires m.phase.Idle? && ReadingsOk(t) && IsInt64(req.amountMinor) && Commits(m.books, req)
    requires m.books.counter < TWO_64 && |WalPayload(WalRecord(NIL_UUID, req, t.wall))| <= WalFormat.MAX_PAYLOAD
    ensures var events := EventsFor(m.books, req, t);
            var (after, reply) := Process(m.books, req, t);
            && RunOk(m, events)
            && Run(m, events) == Machine(after, Idle, m.io, m.replies + [reply], m.answered + [req])
  {
    hide WalPayload, TransactionId, Message;
    var stamp, respond := Stamp(t.clock, t.wall), Respond(t.latency);
    var m1 := Next(m, Pop(req));
    var m2 := Next(m1, Check);
    assert m2 == m.(phase := Validated(req));
    var m3 := Next(m2, stamp);
    var m4 := Next(m3, Append);
    var m5 := Next(m4, Apply);
    assert m5 == m.(phase := Decided(req, Ok, RecordFor(m.books, req, t).transactionId),
                    books := Commit(m.books, RecordFor(m.books, req, t)));
    hide Run, RunOk, Validate, Transfer;
    NoSteps(Next(m5, respond));
    RunFirst(m5, respond, []);
    RunFirst(m4, Apply, [respond]);
    RunFirst(m3, Append, [Apply, respond]);
    RunFirst(m2, stamp, [Append, Apply, respond]);
    RunFirst(m1, Check, [stamp, Append, Apply, respond]);
    RunFirst(m, Pop(req), [Check, stamp, Append, Apply, respond]);
  }

  lemma {:induction false} NoSteps(m: Machine)
    ensures RunOk(m, []) && Run(m, []) == m
  {}

  /** Uninterrupted, the steps on one request have the effect and the reply of handling it in one go. */
  lemma {:induction false} StepsMakeProcess(m: Machine, req: TransactionRequest, t: Readings)
    requires m.phase.Idle? && ReadingsOk(t) && IsInt64(req.amountMinor)
    requires Commits(m.books, req) ==>
               m.books.counter < TWO_64 && |WalPayload(WalRecord(NIL_UUID, req, t.wall))| <= WalFormat.MAX_PAYLOAD
    ensures var events := EventsFor(m.books, req, t);
            var (after, reply) := Process(m.books, req, t);
            && RunOk(m, events)
            && Run(m, events) == Machine(after, Idle, m.io, m.replies + [reply], m.answered + [req])
  {
    hide WalPayload, TransactionId, Message, Transfer, Validate;
    var m1 := Next(m, Pop(req));
    if req.idempotencyKey in m.books.cache {
      RunFirst(m1, ReplyFromCache, []);
      RunFirst(m, Pop(req), [ReplyFromCache]);
    } else if !Commits(m.books, req) {
      var m2 := Next(m1, Check);
      RunFirst(m2, Respond(t.latency), []);
      RunFirst(m1, Check, [Respond(t.latency)]);
      RunFirst(m, Pop(req), [Check, Respond(t.latency)]);
    } else {
      CommitSteps(m, req, t);
    }
  }
}
