/**
  The ledger as a state machine: one engine thread that takes a request through validation,
  logging, application and reply, and one I/O thread that creates accounts between any of its steps.
 */
module Ledger {
  import opened Masks
  import opened Bytes
  import opened Types
  import opened RecordCodec
  import opened Accounts
  import WalFormat

  // ---- Identifiers ----------------------------------------------------------------------------

  /** `std::to_string` of an unsigned number, in ASCII. */
  function Decimal(n: nat): (r: Text)
    ensures r != []
  {
    if n < 10 then [Byte(48 + n)] else Decimal(n / 10) + [Byte(48 + n % 10)]
  }

  lemma DigitByte(a: nat)
    requires a < 10
    ensures Byte(48 + a) as int == 48 + a
  {}

  lemma {:induction false} DecimalParts(n: nat)
    ensures var d := Decimal(n);
            && d[|d| - 1] == Byte(48 + n % 10)
            && (n < 10 <==> |d| == 1)
            && (n >= 10 ==> d[..|d| - 1] == Decimal(n / 10))
  {}

  /** Different numbers print differently. */
  lemma {:induction false} DecimalInjective(a: nat, b: nat)
    requires Decimal(a) == Decimal(b)
    ensures a == b
    decreases a
  {
    hide Decimal, Byte;
    DecimalParts(a);
    DecimalParts(b);
    DigitByte(a % 10);
    DigitByte(b % 10);
    if a >= 10 {
      DecimalInjective(a / 10, b / 10);
    }
  }

  function AccountId(counter: nat): Text {
    Ascii("acc_") + Decimal(counter)
  }

  /** The number a string of decimal digits denotes. */
  function DigitsValue(t: Text): int
    decreases |t|
  {
    if t == [] then 0 else 10 * DigitsValue(t[..|t| - 1]) + (t[|t| - 1] as int - 48)
  }

  predicate AllDigits(t: Text) {
    forall i :: 0 <= i < |t| ==> 48 <= t[i] as int <= 57
  }

  /** Printed numbers are digits that denote the number. */
  lemma {:induction false} DecimalReads(n: nat)
    ensures AllDigits(Decimal(n)) && DigitsValue(Decimal(n)) == n
    decreases n
  {
    hide Decimal, Byte, DigitsValue;
    DecimalParts(n);
    DigitByte(n % 10);
    var d := Decimal(n);
    if n >= 10 {
      DecimalReads(n / 10);
    } else {
      NoDigits();
      assert d[..|d| - 1] == [];
    }
    LastDigit(d);
  }

  lemma NoDigits()
    ensures DigitsValue([]) == 0 && AllDigits([])
  {}

  lemma {:induction false} LastDigit(t: Text)
    requires t != []
    ensures DigitsValue(t) == 10 * DigitsValue(t[..|t| - 1]) + (t[|t| - 1] as int - 48)
    ensures AllDigits(t) <==> AllDigits(t[..|t| - 1]) && 48 <= t[|t| - 1] as int <= 57
  {}

  /** An account id is "acc_" and the counter in decimal. */
  lemma AccountIdReads(counter: nat)
    ensures var id := AccountId(counter);
            && |id| > 4 && id[..4] == [97, 99, 99, 95]
            && AllDigits(id[4..]) && DigitsValue(id[4..]) == counter
  {
    hide Decimal, DigitsValue;
    DecimalReads(counter);
    var prefix := Ascii("acc_");
    assert prefix[0] as int == 97 && prefix[1] as int == 99 && prefix[2] as int == 99 && prefix[3] as int == 95;
    assert AccountId(counter)[..4] == prefix == [97, 99, 99, 95];
    assert AccountId(counter)[4..] == Decimal(counter);
  }

  lemma AccountIdInjective(a: nat, b: nat)
    requires AccountId(a) == AccountId(b)
    ensures a == b
  {
    assert Decimal(a) == AccountId(a)[4..] && Decimal(b) == AccountId(b)[4..];
    DecimalInjective(a, b);
  }

  /** `generate_uuid`: eight bytes of clock, eight bytes of counter. */
  function TransactionId(clock: int, counter: nat): Uuid
    requires IsInt64(clock)
  {
    I64(clock) + U64(counter)
  }

  /** The counter value inside a transaction id. */
  function CounterOf(id: Uuid): nat {
    Unsigned(id[8..])
  }

  /** The clock reading inside a transaction id. */
  function ClockOf(id: Uuid): int
  {
    U64Of(id[..8]);
    Signed64(Unsigned(id[..8]))
  }

  lemma ClockOfId(clock: int, counter: nat)
    requires IsInt64(clock)
    ensures ClockOf(TransactionId(clock, counter)) == clock
  {
    hide U64;
    assert TransactionId(clock, counter)[..8] == I64(clock);
    I64Inverse(clock);
  }

  lemma CounterOfId(clock: int, counter: nat)
    requires IsInt64(clock) && counter < TWO_64
    ensures CounterOf(TransactionId(clock, counter)) == counter
  {
    assert TransactionId(clock, counter)[8..] == U64(counter);
    U64Inverse(counter);
  }

  // ---- One request ----------------------------------------------------------------------------

  /** Everything the engine keeps across requests, with the log of this engine's lifetime. */
  datatype Books = Books(
    accounts: Table,
    cache: map<Text, TransactionResponse>,
    counter: nat,
    log: seq<WalRecord>,
    txCount: nat)

  const EMPTY_BOOKS: Books := Books(map[], map[], 0, [], 0)

  function Message(status: TxStatus): Text {
    match status
    case Ok => []
    case InsufficientFunds => Ascii("Insufficient funds in debit account")
    case AccountNotFound => Ascii("Debit or credit account not found")
    case InvariantViolated => Ascii("Double-entry invariant would be violated")
    case InternalError => Ascii("Internal engine error")
  }

  /** Success has no message, and the refusals the texts of the source. */
  lemma MessageTexts()
    ensures Message(Ok) == []
    ensures Message(InsufficientFunds) == Ascii("Insufficient funds in debit account")
    ensures Message(AccountNotFound) == Ascii("Debit or credit account not found")
    ensures Message(InvariantViolated) == Ascii("Double-entry invariant would be violated")
    ensures Message(InternalError) == Ascii("Internal engine error")
  {}

  /** Readings taken while a request is handled: steady clock, wall clock, latency. */
  datatype Readings = Readings(clock: int, wall: int, latency: int)

  predicate ReadingsOk(t: Readings) {
    IsInt64(t.clock) && IsInt64(t.wall)
  }

  function RecordFor(b: Books, req: TransactionRequest, t: Readings): WalRecord
    requires ReadingsOk(t)
  {
    WalRecord(TransactionId(t.clock, b.counter), req, t.wall)
  }

  function Commit(b: Books, w: WalRecord): Books
    requires w.request.debitAccountId in b.accounts && w.request.creditAccountId in b.accounts
  {
    var r := w.request;
    b.(counter := b.counter + 1, log := b.log + [w],
       accounts := Transfer(b.accounts, r.debitAccountId, r.creditAccountId, r.amountMinor))
  }

  function ResponseTo(req: TransactionRequest, status: TxStatus, id: Uuid, latency: int): TransactionResponse {
    TransactionResponse(req.correlationId, id, status, Message(status), latency)
  }

  /** Caching the response and counting the transaction. */
  function Finish(b: Books, req: TransactionRequest, resp: TransactionResponse): Books {
    b.(cache := if req.idempotencyKey != [] then b.cache[req.idempotencyKey := resp] else b.cache,
       txCount := b.txCount + 1)
  }

  /** The request is not answered from the cache and passes validation: only then it is logged. */
  predicate Commits(b: Books, req: TransactionRequest) {
    req.idempotencyKey !in b.cache && Validate(b.accounts, req).Ok?
  }

  /** One pass of the loop in `run` on a popped request: the books afterwards and the reply. */
  function Process(b: Books, req: TransactionRequest, t: Readings): (Books, TransactionResponse)
    requires ReadingsOk(t)
  {
    if req.idempotencyKey in b.cache then
      (b, b.cache[req.idempotencyKey].(correlationId := req.correlationId))
    else
      var status := Validate(b.accounts, req);
      if status.Ok? then
        var w := RecordFor(b, req, t);
        var resp := ResponseTo(req, status, w.transactionId, t.latency);
        (Finish(Commit(b, w), req, resp), resp)
      else
        var resp := ResponseTo(req, status, NIL_UUID, t.latency);
        (Finish(b, req, resp), resp)
  }

  /**
    What a request not answered from the cache gets: success exactly if it was logged, under the
    frame's transaction id; otherwise the reason validation gave, a nil id and no frame. The frame
    holds the request and the readings of the two clocks.
   */
  lemma ReplyTells(b: Books, req: TransactionRequest, t: Readings)
    requires ReadingsOk(t) && req.idempotencyKey !in b.cache && b.counter < TWO_64
    ensures var (after, reply) := Process(b, req, t);
            && reply.correlationId == req.correlationId && reply.latencyUs == t.latency
            && reply.status == Validate(b.accounts, req) && reply.message == Message(reply.status)
            && (reply.status.Ok? <==> after.log != b.log)
            && (reply.status.Ok? ==>
                  && |after.log| == |b.log| + 1 && after.log[..|b.log|] == b.log
                  && var w := after.log[|b.log|];
                  && reply.transactionId == w.transactionId && w.request == req && w.timestamp == t.wall
                  && ClockOf(w.transactionId) == t.clock && CounterOf(w.transactionId) == b.counter
                  && after.counter == b.counter + 1)
            && (!reply.status.Ok? ==>
                  reply.transactionId == NIL_UUID && after.accounts == b.accounts && after.counter == b.counter)
  {
    ClockOfId(t.clock, b.counter);
    CounterOfId(t.clock, b.counter);
    hide TransactionId, ClockOf, CounterOf, Transfer, Message;
  }

  /** What the request does to every account: only a success moves money, from the debited to the credited one. */
  lemma MoneyMoves(b: Books, req: TransactionRequest, t: Readings, id: Text)
    requires ReadingsOk(t) && req.idempotencyKey !in b.cache
    ensures var (after, reply) := Process(b, req, t);
            && after.accounts.Keys == b.accounts.Keys
            && (id in b.accounts ==>
                  var moved := (if id == req.creditAccountId then req.amountMinor else 0)
                               - (if id == req.debitAccountId then req.amountMinor else 0);
                  after.accounts[id] ==
                    b.accounts[id].(balance := b.accounts[id].balance + if reply.status.Ok? then moved else 0))
  {
    hide TransactionId, Transfer, Message;
    if id in b.accounts && Validate(b.accounts, req).Ok? {
      TransferEffect(b.accounts, req.debitAccountId, req.creditAccountId, req.amountMinor, id);
    }
  }

  // ---- Account creation -----------------------------------------------------------------------

  predicate NameTaken(accounts: Table, name: Text) {
    exists id :: id in accounts && accounts[id].name == name
  }

  /** The part of `create_account` under the lock, for an id already drawn. */
  function Register(accounts: Table, req: CreateAccountRequest, id: Text): Table {
    if NameTaken(accounts, req.name) then accounts
    else accounts[id := AccountInfo(id, req.name, req.kind, 0)]
  }

  // ---- The two threads ------------------------------------------------------------------------

  datatype Phase =
    | Idle
    | Popped(req: TransactionRequest)
    | Validated(req: TransactionRequest)
    | Appending(w: WalRecord)                      // id drawn and payload built; append under way
    | Appended(w: WalRecord)                       // durable, balances not yet updated
    | Decided(req: TransactionRequest, status: TxStatus, id: Uuid)

  datatype IoPhase = IoIdle | Drawn(req: CreateAccountRequest, id: Text)

  /** `answered` holds the requests the replies answer, in the same order. */
  datatype Machine = Machine(
    books: Books,
    phase: Phase,
    io: IoPhase,
    replies: seq<TransactionResponse>,
    answered: seq<TransactionRequest>)

  datatype Event =
    | Pop(req: TransactionRequest)
    | ReplyFromCache
    | Check
    | Stamp(clock: int, wall: int)
    | Append
    | Apply
    | Respond(latency: int)
    | Draw(create: CreateAccountRequest)
    | Insert

  const START: Machine := Machine(EMPTY_BOOKS, Idle, IoIdle, [], [])

  /**
    The event is the next step of its thread. Assumed of the run: fewer than 2^64 counter draws,
    64-bit amounts and clocks, and log payloads within the frame format's limit.
   */
  predicate Enabled(m: Machine, e: Event) {
    match e
    case Pop(req) => m.phase.Idle? && IsInt64(req.amountMinor)
    case ReplyFromCache => m.phase.Popped? && m.phase.req.idempotencyKey in m.books.cache
    case Check => m.phase.Popped? && m.phase.req.idempotencyKey !in m.books.cache
    case Stamp(clock, wall) =>
      && m.phase.Validated? && IsInt64(clock) && IsInt64(wall) && m.books.counter < TWO_64
      && IsInt64(m.phase.req.amountMinor)
      && |WalPayload(WalRecord(NIL_UUID, m.phase.req, wall))| <= WalFormat.MAX_PAYLOAD
    case Append => m.phase.Appending?
    case Apply =>
      && m.phase.Appended?
      && m.phase.w.request.debitAccountId in m.books.accounts
      && m.phase.w.request.creditAccountId in m.books.accounts
    case Respond(_) => m.phase.Decided?
    case Draw(_) => m.io.IoIdle? && m.books.counter < TWO_64
    case Insert => m.io.Drawn?
  }

  function Next(m: Machine, e: Event): Machine
    requires Enabled(m, e)
  {
    var b := m.books;
    match e
    case Pop(req) => m.(phase := Popped(req))
    case ReplyFromCache =>
      var req := m.phase.req;
      m.(phase := Idle, answered := m.answered + [req],
         replies := m.replies + [b.cache[req.idempotencyKey].(correlationId := req.correlationId)])
    case Check =>
      var req := m.phase.req;
      var status := Validate(b.accounts, req);
      m.(phase := if status.Ok? then Validated(req) else Decided(req, status, NIL_UUID))
    case Stamp(clock, wall) =>
      m.(phase := Appending(WalRecord(TransactionId(clock, b.counter), m.phase.req, wall)),
         books := b.(counter := b.counter + 1))
    case Append => m.(phase := Appended(m.phase.w), books := b.(log := b.log + [m.phase.w]))
    case Apply =>
      var r := m.phase.w.request;
      m.(phase := Decided(r, Ok, m.phase.w.transactionId),
         books := b.(accounts := Transfer(b.accounts, r.debitAccountId, r.creditAccountId, r.amountMinor)))
    case Respond(latency) =>
      var resp := ResponseTo(m.phase.req, m.phase.status, m.phase.id, latency);
      m.(phase := Idle, books := Finish(b, m.phase.req, resp),
         replies := m.replies + [resp], answered := m.answered + [m.phase.req])
    case Draw(create) =>
      m.(io := Drawn(create, AccountId(b.counter)), books := b.(counter := b.counter + 1))
    case Insert =>
      m.(io := IoIdle, books := b.(accounts := Register(b.accounts, m.io.req, m.io.id)))
  }

  /** The events of the engine thread on one request. */
  function EventsFor(b: Books, req: TransactionRequest, t: Readings): seq<Event> {
    if req.idempotencyKey in b.cache then [Pop(req), ReplyFromCache]
    else if !Validate(b.accounts, req).Ok? then [Pop(req), Check, Respond(t.latency)]
    else [Pop(req), Check, Stamp(t.clock, t.wall), Append, Apply, Respond(t.latency)]
  }

  // ---- The invariant --------------------------------------------------------------------------

  /** The frames whose transactions the balances already contain. */
  function AppliedLog(m: Machine): seq<WalRecord> {
    if m.phase.Appended? && m.books.log != [] then m.books.log[..|m.books.log| - 1] else m.books.log
  }

  ghost predicate IdsOk(m: Machine) {
    && (forall id :: id in m.books.accounts ==>
          m.books.accounts[id].id == id && exists c: nat :: c < m.books.counter && id == AccountId(c))
    && (forall a, b :: a in m.books.accounts && b in m.books.accounts && a != b ==>
          m.books.accounts[a].name != m.books.accounts[b].name)
    && (m.io.Drawn? ==>
          m.io.id !in m.books.accounts && exists c: nat :: c < m.books.counter && m.io.id == AccountId(c))
  }

  /** Log entries carry increasing counter values, all drawn already. */
  ghost predicate LogIdsOk(m: Machine) {
    && (forall i :: 0 <= i < |m.books.log| ==> CounterOf(m.books.log[i].transactionId) < m.books.counter)
    && (forall i, j :: 0 <= i < j < |m.books.log| ==>
          CounterOf(m.books.log[i].transactionId) < CounterOf(m.books.log[j].transactionId))
    && (m.phase.Appending? ==>
          && CounterOf(m.phase.w.transactionId) < m.books.counter
          && forall i :: 0 <= i < |m.books.log| ==>
               CounterOf(m.books.log[i].transactionId) < CounterOf(m.phase.w.transactionId))
  }

  predicate Fits(w: WalRecord) {
    IsInt64(w.request.amountMinor) && IsInt64(w.timestamp) && |WalPayload(w)| <= WalFormat.MAX_PAYLOAD
  }

  ghost predicate LogOk(m: Machine) {
    && Covers(m.books.accounts, m.books.log) && AllPositive(m.books.log)
    && (forall i :: 0 <= i < |m.books.log| ==> Fits(m.books.log[i]))
    && (m.phase.Appended? ==> m.books.log != [] && m.books.log[|m.books.log| - 1] == m.phase.w)
    && (m.phase.Appending? ==> Fits(m.phase.w))
  }

  /** A validated transaction stays valid until it is applied. */
  ghost predicate StillValid(m: Machine) {
    && (m.phase.Popped? ==> IsInt64(m.phase.req.amountMinor))
    && (m.phase.Validated? ==> IsInt64(m.phase.req.amountMinor) && Validate(m.books.accounts, m.phase.req).Ok?)
    && (m.phase.Appending? ==> Validate(m.books.accounts, m.phase.w.request).Ok?)
    && (m.phase.Appended? ==> Validate(m.books.accounts, m.phase.w.request).Ok?)
  }

  /** The balances are the log folded over zero balances. */
  ghost predicate BalancesOk(m: Machine) {
    && AssetsCovered(m.books.accounts)
    && Covers(m.books.accounts, AppliedLog(m))
    && m.books.accounts == Fold(ZeroBalances(m.books.accounts), AppliedLog(m))
  }

  ghost predicate LoggedAs(log: seq<WalRecord>, id: Uuid, req: TransactionRequest) {
    exists i :: 0 <= i < |log| && log[i].transactionId == id && log[i].request == req
  }

  ghost predicate LoggedFor(log: seq<WalRecord>, id: Uuid, key: Text) {
    exists i :: 0 <= i < |log| && log[i].transactionId == id && log[i].request.idempotencyKey == key
  }

  /** The log holds a frame with this id, of the request itself or of an earlier one under the same non-empty key. */
  ghost predicate Acked(log: seq<WalRecord>, id: Uuid, req: TransactionRequest) {
    LoggedAs(log, id, req) || (req.idempotencyKey != [] && LoggedFor(log, id, req.idempotencyKey))
  }

  /** Nothing is acknowledged, cached or about to be acknowledged as committed without its frame. */
  ghost predicate AcksLogged(m: Machine) {
    && |m.answered| == |m.replies|
    && (forall i :: 0 <= i < |m.replies| ==>
          && m.replies[i].correlationId == m.answered[i].correlationId
          && (m.replies[i].status.Ok? ==> Acked(m.books.log, m.replies[i].transactionId, m.answered[i])))
    && (forall key :: key in m.books.cache && m.books.cache[key].status.Ok? ==>
          LoggedFor(m.books.log, m.books.cache[key].transactionId, key))
    && (m.phase.Decided? && m.phase.status.Ok? ==> LoggedAs(m.books.log, m.phase.id, m.phase.req))
    && [] !in m.books.cache
  }

  /** The key of a frame is cached already, unless its request is still being answered. */
  ghost predicate KeySettled(m: Machine, i: nat)
    requires i < |m.books.log|
  {
    var key := m.books.log[i].request.idempotencyKey;
    key != [] ==>
      || key in m.books.cache
      || (m.phase.Appended? && m.phase.w.request.idempotencyKey == key)
      || (m.phase.Decided? && m.phase.req.idempotencyKey == key)
  }

  /** No two frames carry the same non-empty key. */
  ghost predicate KeysOk(m: Machine) {
    && (forall i, j :: 0 <= i < j < |m.books.log| && m.books.log[i].request.idempotencyKey != [] ==>
          m.books.log[i].request.idempotencyKey != m.books.log[j].request.idempotencyKey)
    && (forall i :: 0 <= i < |m.books.log| ==> KeySettled(m, i))
    && (m.phase.Validated? ==> m.phase.req.idempotencyKey !in m.books.cache)
    && (m.phase.Appending? ==> m.phase.w.request.idempotencyKey !in m.books.cache)
  }

  /** Some reply has answered this very record with success. */
  ghost predicate AnsweredOk(m: Machine, w: WalRecord) {
    exists k :: 0 <= k < |m.replies| && k < |m.answered| && m.replies[k].status.Ok?
                && m.replies[k].transactionId == w.transactionId && m.answered[k] == w.request
  }

  /** The answer to this record is under way. */
  predicate Waiting(m: Machine, w: WalRecord) {
    || (m.phase.Appended? && m.phase.w == w)
    || (m.phase.Decided? && m.phase.status.Ok? && m.phase.id == w.transactionId && m.phase.req == w.request)
  }

  ghost predicate AnswerDue(m: Machine, i: nat)
    requires i < |m.books.log|
  {
    AnsweredOk(m, m.books.log[i]) || Waiting(m, m.books.log[i])
  }

  ghost predicate FramesAnswered(m: Machine) {
    |m.answered| == |m.replies| && forall i :: 0 <= i < |m.books.log| ==> AnswerDue(m, i)
  }

  ghost predicate Inv(m: Machine) {
    IdsOk(m) && LogIdsOk(m) && LogOk(m) && StillValid(m) && BalancesOk(m) && AcksLogged(m) && KeysOk(m)
    && FramesAnswered(m)
  }

  lemma StartInv()
    ensures Inv(START)
  {}
}
