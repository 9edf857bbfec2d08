/** What holds in every reachable state of the ledger. */
module LedgerTheorems {
  import opened Bytes
  import opened Types
  import opened Codec
  import opened WireCodec
  import opened RecordCodec
  import opened Accounts
  import opened Residual
  import opened Ledger
  import opened LedgerRuns
  import opened WalFormat

  // ---- Snapshots ------------------------------------------------------------------------------

  lemma BalancesSum(m: Machine)
    requires Inv(m)
    ensures Sum(m.books.accounts, m.books.accounts.Keys) == 0
    ensures AllPositive(AppliedLog(m)) && Covers(m.books.accounts, AppliedLog(m))
  {
    hide IdsOk, LogIdsOk, AcksLogged, StillValid, Fold, Sum, WalPayload, AssetsCovered, Covers;
    FoldSums(m.books.accounts, AppliedLog(m), {});
  }

  lemma FlowOfState(m: Machine)
    requires BalancesOk(m)
    ensures Sum(m.books.accounts, AssetIds(m.books.accounts)) == Flow(m.books.accounts, AppliedLog(m))
  {
    hide Fold, Sum, AssetsCovered, Flow;
    FlowIsAssets(m.books.accounts, AppliedLog(m));
  }

  /**
    A snapshot taken between any two steps of the two threads: the balances add up to zero, no asset
    account is overdrawn, the residue is twice the net flow to the asset side of the transactions
    applied so far, and so `invariant_ok` says exactly that this flow is zero.
   */
  lemma {:induction false} EverySnapshot(es: seq<Event>)
    requires RunOk(START, es)
    ensures var m := Run(START, es);
            var accounts := m.books.accounts;
            && Sum(accounts, accounts.Keys) == 0
            && AssetsCovered(accounts)
            && Covers(accounts, AppliedLog(m))
            && Residue(accounts) == 2 * Flow(accounts, AppliedLog(m))
            && (Residue(accounts) == 0 <==> Flow(accounts, AppliedLog(m)) == 0)
  {
    StartInv();
    RunInv(START, es);
    var m := Run(START, es);
    BalancesSum(m);
    ResidueIsTwiceAssets(m.books.accounts);
    hide Flow, Residue;
    FlowOfState(m);
  }

  // ---- The equation that does not hold --------------------------------------------------------

  function FundingRequest(amount: int): TransactionRequest {
    TransactionRequest(NIL_UUID, [], [], AccountId(0), AccountId(1), amount, Ascii("USD"), [])
  }

  /** Two account creations. */
  function Openings(payer: Text, payee: Text): seq<Event> {
    [Draw(CreateAccountRequest(NIL_UUID, payer, Revenue)), Event.Insert,
     Draw(CreateAccountRequest(NIL_UUID, payee, Asset)), Event.Insert]
  }

  /** Two account creations and one transaction from the first account to the second. */
  function FundingRun(payer: Text, payee: Text, amount: int): seq<Event> {
    Openings(payer, payee) + [Pop(FundingRequest(amount)), Check, Stamp(0, 0), Append, Apply, Respond(0)]
  }

  lemma FundingPayload(amount: int)
    requires IsInt64(amount)
    ensures |WalPayload(WalRecord(NIL_UUID, FundingRequest(amount), 0))| <= MAX_PAYLOAD
  {
    hide StringField, Ascii, Decimal;
    var r := FundingRequest(amount);
    DecimalParts(0);
    DecimalParts(1);
    SixFields(r.debitAccountId, r.creditAccountId, r.idempotencyKey, r.description, r.currency, r.stripeChargeId);
  }

  /** The run up to the transaction. */
  lemma FundingAccounts(payer: Text, payee: Text)
    requires payer != payee
    ensures AccountId(0) != AccountId(1)
    ensures var m := Machine(FundingBooks(payer, payee), Idle, IoIdle, [], []);
            var c0, c1 := CreateAccountRequest(NIL_UUID, payer, Revenue), CreateAccountRequest(NIL_UUID, payee, Asset);
            && var m1 := Next(START, Draw(c0));
            && Enabled(m1, Event.Insert)
            && var m2 := Next(m1, Event.Insert);
            && Enabled(m2, Draw(c1))
            && var m3 := Next(m2, Draw(c1));
            && Enabled(m3, Event.Insert) && Next(m3, Event.Insert) == m
  {
    hide AccountId;
    if AccountId(0) == AccountId(1) {
      AccountIdInjective(0, 1);
    }
  }

  function FundingTable(payer: Text, payee: Text): Table {
    map[AccountId(0) := AccountInfo(AccountId(0), payer, Revenue, 0),
        AccountId(1) := AccountInfo(AccountId(1), payee, Asset, 0)]
  }

  function FundingBooks(payer: Text, payee: Text): Books {
    EMPTY_BOOKS.(counter := 2, accounts := FundingTable(payer, payee))
  }

  lemma {:induction false} FundingPays(payer: Text, payee: Text, amount: int)
    requires payer != payee && 0 < amount && IsInt64(amount)
    ensures var m, req := Machine(FundingBooks(payer, payee), Idle, IoIdle, [], []), FundingRequest(amount);
            var events := [Pop(req), Check, Stamp(0, 0), Append, Apply, Respond(0)];
            && Commits(m.books, req) && RunOk(m, events)
            && Run(m, events).phase.Idle? && Run(m, events).books == Process(m.books, req, Readings(0, 0, 0)).0
  {
    FundingAccounts(payer, payee);
    FundingPayload(amount);
    hide AccountId, Ascii, Next, Enabled, WalPayload, TransactionId, Process, Run, RunOk;
    var m, req := Machine(FundingBooks(payer, payee), Idle, IoIdle, [], []), FundingRequest(amount);
    var t := Readings(0, 0, 0);
    assert EventsFor(m.books, req, t) == [Pop(req), Check, Stamp(0, 0), Append, Apply, Respond(0)];
    StepsMakeProcess(m, req, t);
  }

  lemma {:induction false} FundingOpens(payer: Text, payee: Text)
    requires payer != payee
    ensures var es := Openings(payer, payee);
            RunOk(START, es) && Run(START, es) == Machine(FundingBooks(payer, payee), Idle, IoIdle, [], [])
  {
    FundingAccounts(payer, payee);
    var c0, c1 := CreateAccountRequest(NIL_UUID, payer, Revenue), CreateAccountRequest(NIL_UUID, payee, Asset);
    var m1 := Next(START, Draw(c0));
    var m2 := Next(m1, Event.Insert);
    var m3 := Next(m2, Draw(c1));
    hide *;
    NoSteps(Next(m3, Event.Insert));
    RunFirst(m3, Event.Insert, []);
    RunFirst(m2, Draw(c1), [Event.Insert] + []);
    RunFirst(m1, Event.Insert, [Draw(c1)] + ([Event.Insert] + []));
    RunFirst(START, Draw(c0), [Event.Insert] + ([Draw(c1)] + ([Event.Insert] + [])));
    OpeningEvents(payer, payee);
  }

  lemma OpeningEvents(payer: Text, payee: Text)
    ensures var c0, c1 := CreateAccountRequest(NIL_UUID, payer, Revenue), CreateAccountRequest(NIL_UUID, payee, Asset);
            Openings(payer, payee) == [Draw(c0)] + ([Event.Insert] + ([Draw(c1)] + ([Event.Insert] + [])))
  {}

  lemma {:induction false} FundingPath(payer: Text, payee: Text, amount: int)
    requires payer != payee && 0 < amount && IsInt64(amount)
    ensures var es, b := FundingRun(payer, payee, amount), FundingBooks(payer, payee);
            && RunOk(START, es) && Commits(b, FundingRequest(amount))
            && Run(START, es).phase.Idle?
            && Run(START, es).books == Process(b, FundingRequest(amount), Readings(0, 0, 0)).0
  {
    hide Run, RunOk, Process, Commits, FundingRequest, FundingBooks, Openings;
    FundingOpens(payer, payee);
    FundingPays(payer, payee, amount);
    var events := [Pop(FundingRequest(amount)), Check, Stamp(0, 0), Append, Apply, Respond(0)];
    RunAppend(START, Openings(payer, payee), events);
  }

  lemma FundingFlow(payer: Text, payee: Text, amount: int)
    requires payer != payee && Commits(FundingBooks(payer, payee), FundingRequest(amount))
    ensures var after := Process(FundingBooks(payer, payee), FundingRequest(amount), Readings(0, 0, 0)).0;
            Covers(after.accounts, after.log) && Flow(after.accounts, after.log) == amount
  {
    FundingAccounts(payer, payee);
    hide TransactionId, Message, AccountId, Ascii, Next, Enabled;
    var after := Process(FundingBooks(payer, payee), FundingRequest(amount), Readings(0, 0, 0)).0;
    assert after.log[..0] == [];
  }

  lemma AllApplied(m: Machine)
    requires m.phase.Idle?
    ensures AppliedLog(m) == m.books.log
  {}

  /**
    The promised equation fails in a run from the start: a revenue account funds an asset account,
    and the residue becomes twice the amount.
   */
  lemma {:induction false} FundingBreaksEquation(payer: Text, payee: Text, amount: int)
    requires payer != payee && 0 < amount && IsInt64(amount)
    ensures var es := FundingRun(payer, payee, amount);
            RunOk(START, es) && Residue(Run(START, es).books.accounts) == 2 * amount
  {
    FundingPath(payer, payee, amount);
    hide *;
    var es := FundingRun(payer, payee, amount);
    EverySnapshot(es);
    AllApplied(Run(START, es));
    FundingFlow(payer, payee, amount);
  }

  // ---- Bounds ---------------------------------------------------------------------------------

  /** The transaction about to be applied leaves 64 bits neither between its two updates nor after them. */
  predicate PendingInRange(m: Machine) {
    m.phase.Appended? ==>
      && Enabled(m, Apply)
      && var r := m.phase.w.request;
      && IsInt64(m.books.accounts[r.debitAccountId].balance - r.amountMinor)
      && IsInt64(Adjust(m.books.accounts, r.debitAccountId, -r.amountMinor)[r.creditAccountId].balance + r.amountMinor)
  }

  lemma PendingBound(m: Machine)
    requires BalancesOk(m) && LogOk(m) && StillValid(m) && Committed(m.books.log) < HALF
    ensures Committed(AppliedLog(m)) < HALF && PendingInRange(m)
  {
    hide Fold, ZeroBalances, AssetsCovered, WalPayload, Adjust;
    if m.phase.Appended? {
      var r := m.phase.w.request;
      assert Committed(m.books.log) == Committed(AppliedLog(m)) + r.amountMinor;
      TransferInRange(m.books.accounts, AppliedLog(m), r.debitAccountId, r.creditAccountId, r.amountMinor);
    }
  }

  /**
    Below 2^62 committed in total, no balance update, no sum over accounts and neither subtraction
    of the accounting check overflows 64 bits.
   */
  lemma {:induction false} NoOverflow(es: seq<Event>)
    requires RunOk(START, es) && Committed(Run(START, es).books.log) < HALF
    ensures var accounts := Run(START, es).books.accounts;
            Bounded(accounts) && PendingInRange(Run(START, es)) && CheckInRange(accounts)
  {
    StartInv();
    RunInv(START, es);
    var m := Run(START, es);
    BalancesSum(m);
    PendingBound(m);
    hide *;
    AppliedBound(m);
    ResidueInRange(m.books.accounts);
  }

  lemma AppliedBound(m: Machine)
    requires BalancesOk(m) && AllPositive(AppliedLog(m)) && Committed(AppliedLog(m)) < HALF
    ensures Bounded(m.books.accounts)
  {
    hide Fold, Bounded, AppliedLog;
    CommittedBound(m.books.accounts, AppliedLog(m));
  }

  // ---- Interference and identity --------------------------------------------------------------

  /** Whatever the I/O thread did since validation, a transaction about to be applied is still valid. */
  lemma {:induction false} ValidWhenApplied(es: seq<Event>)
    requires RunOk(START, es)
    ensures var m := Run(START, es);
            m.phase.Appended? ==> Enabled(m, Apply) && Validate(m.books.accounts, m.phase.w.request).Ok?
  {
    StartInv();
    RunInv(START, es);
  }

  /** Account ids are new when drawn, creation overwrites nothing, and names stay unique. */
  lemma {:induction false} CreationIsSafe(es: seq<Event>)
    requires RunOk(START, es)
    ensures var m := Run(START, es);
            && (forall a, b :: a in m.books.accounts && b in m.books.accounts && a != b ==>
                  m.books.accounts[a].name != m.books.accounts[b].name)
            && (Enabled(m, Insert) ==>
                  && m.io.id !in m.books.accounts
                  && forall id :: id in m.books.accounts ==>
                       && id in Next(m, Insert).books.accounts
                       && Next(m, Insert).books.accounts[id] == m.books.accounts[id])
  {
    StartInv();
    RunInv(START, es);
    hide LogIdsOk, LogOk, StillValid, BalancesOk, AcksLogged, AccountId, Run, RunOk;
  }

  /** Distinct commits have distinct transaction ids. */
  lemma {:induction false} TransactionIdsDistinct(es: seq<Event>, i: nat, j: nat)
    requires RunOk(START, es) && i < j < |Run(START, es).books.log|
    ensures Run(START, es).books.log[i].transactionId != Run(START, es).books.log[j].transactionId
  {
    StartInv();
    RunInv(START, es);
  }

  /**
    Every reply carries the correlation id of the request it answers. If it reports success, exactly
    one frame in the log has its transaction id, and that frame holds this very request, or an
    earlier one under the same non-empty key.
   */
  lemma {:induction false} AcknowledgedOnce(es: seq<Event>, k: nat)
    requires RunOk(START, es) && k < |Run(START, es).replies|
    ensures var m := Run(START, es);
            && |m.answered| == |m.replies| && m.replies[k].correlationId == m.answered[k].correlationId
            && (m.replies[k].status.Ok? ==>
                  && Acked(m.books.log, m.replies[k].transactionId, m.answered[k])
                  && forall i, j :: (0 <= i < |m.books.log| && 0 <= j < |m.books.log|
                                     && m.books.log[i].transactionId == m.replies[k].transactionId
                                     && m.books.log[j].transactionId == m.replies[k].transactionId) ==> i == j)
  {
    StartInv();
    RunInv(START, es);
    hide Acked, IdsOk, LogOk, StillValid, BalancesOk, KeysOk, CounterOf;
  }

  /**
    The converse: while the engine thread is idle, every frame has been answered with success, under
    its transaction id, to the request it holds.
   */
  lemma {:induction false} CommittedAnswered(es: seq<Event>, i: nat)
    requires RunOk(START, es) && Run(START, es).phase.Idle? && i < |Run(START, es).books.log|
    ensures var m := Run(START, es);
            exists k :: 0 <= k < |m.replies| && k < |m.answered| && m.replies[k].status.Ok?
                        && m.replies[k].transactionId == m.books.log[i].transactionId
                        && m.answered[k] == m.books.log[i].request
  {
    StartInv();
    RunInv(START, es);
    hide *;
    IdleAnswered(Run(START, es), i);
  }

  lemma {:induction false} IdleAnswered(m: Machine, i: nat)
    requires Inv(m) && m.phase.Idle? && i < |m.books.log|
    ensures exists k :: 0 <= k < |m.replies| && k < |m.answered| && m.replies[k].status.Ok?
                        && m.replies[k].transactionId == m.books.log[i].transactionId
                        && m.answered[k] == m.books.log[i].request
  {
    hide IdsOk, LogIdsOk, LogOk, StillValid, BalancesOk, AcksLogged, KeysOk;
    assert AnswerDue(m, i);
  }

  /** Under every interleaving, no two frames of a run carry the same non-empty idempotency key. */
  lemma {:induction false} CommittedOnce(es: seq<Event>, i: nat, j: nat)
    requires RunOk(START, es) && i < j < |Run(START, es).books.log|
    requires Run(START, es).books.log[i].request.idempotencyKey != []
    ensures Run(START, es).books.log[i].request.idempotencyKey != Run(START, es).books.log[j].request.idempotencyKey
  {
    StartInv();
    RunInv(START, es);
  }

  /** The I/O thread does change the account table: exactly when it inserts an account under a new name. */
  lemma {:induction false} IoThreadChangesAccounts(es: seq<Event>, e: Event)
    requires RunOk(START, es) && Enabled(Run(START, es), e) && (e.Draw? || e.Insert?)
    ensures var m := Run(START, es);
            Next(m, e).books.accounts != m.books.accounts <==> e.Insert? && !NameTaken(m.books.accounts, m.io.req.name)
  {
    CreationIsSafe(es);
    hide Run, RunOk, NameTaken, AccountId;
    var m := Run(START, es);
    if e.Insert? && !NameTaken(m.books.accounts, m.io.req.name) {
      assert m.io.id in Next(m, e).books.accounts;
    }
  }

  /** It does so in two steps from the start, while the engine thread has done nothing. */
  lemma {:induction false} IoThreadCreatesFirst(create: CreateAccountRequest)
    ensures var es := [Draw(create), Event.Insert];
            && RunOk(START, es)
            && Run(START, es).books.accounts ==
               map[AccountId(0) := AccountInfo(AccountId(0), create.name, create.kind, 0)]
  {
    hide AccountId;
    var m1 := Next(START, Draw(create));
    NoSteps(Next(m1, Event.Insert));
    RunFirst(m1, Event.Insert, []);
    RunFirst(START, Draw(create), [Event.Insert]);
    assert [Draw(create)] + [Event.Insert] == [Draw(create), Event.Insert];
  }
}
