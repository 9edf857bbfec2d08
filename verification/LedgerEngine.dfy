/** The ledger engine object: its account table, caches and counters, the log and the two queues. */
module LedgerEngine {
  import opened Masks
  import opened Bytes
  import opened Types
  import opened RecordCodec
  import opened Accounts
  import opened Ledger
  import opened LedgerCrash
  import opened Idempotency
  import LedgerRuns
  import opened WalFormat
  import WalRecovery
  import opened Wal
  import opened RingBuffer

  /** A response on its way to the sender; the identity is never filled in by the engine. */
  datatype TxResponseEnvelope = TxResponseEnvelope(zmqIdentity: Text, response: TransactionResponse)

  function CreateReply(accounts: Table, counter: nat, req: CreateAccountRequest): CreateAccountResponse {
    if NameTaken(accounts, req.name)
    then CreateAccountResponse(req.correlationId, AccountId(counter), InternalError, NameTakenMessage(req.name))
    else CreateAccountResponse(req.correlationId, AccountId(counter), Ok, [])
  }

  /** The reply to a creation reports success exactly when the account is there under the reported id, new and empty. */
  lemma CreateReplyTells(accounts: Table, counter: nat, req: CreateAccountRequest)
    requires AccountId(counter) !in accounts
    ensures var reply, after := CreateReply(accounts, counter, req), Register(accounts, req, AccountId(counter));
            && reply.correlationId == req.correlationId && reply.accountId == AccountId(counter)
            && (reply.status.Ok? <==> reply.accountId in after)
            && (reply.status.Ok? ==> reply.message == [])
            && (!reply.status.Ok? ==>
                  && reply.status.InternalError?
                  && reply.message == Ascii("Account with name '") + req.name + Ascii("' already exists"))
            && (reply.status.Ok? ==> after[reply.accountId] == AccountInfo(reply.accountId, req.name, req.kind, 0))
            && (!reply.status.Ok? ==> after == accounts && exists id :: id in accounts && accounts[id].name == req.name)
  {
    hide AccountId, Ascii;
  }

  function NameTakenMessage(name: Text): Text {
    Ascii("Account with name '") + name + Ascii("' already exists")
  }

  /** A request whose amount is a 64-bit integer and whose log payload one frame can hold. */
  predicate Loggable(req: TransactionRequest) {
    IsInt64(req.amountMinor) && |WalPayload(WalRecord(NIL_UUID, req, 0))| <= MAX_PAYLOAD
  }

  /** The frame a request adds to the log, if any. */
  function FrameOf(b: Books, req: TransactionRequest, t: Readings): seq<Payload>
    requires ReadingsOk(t) && IsInt64(req.amountMinor)
  {
    if Commits(b, req) then [WalPayload(RecordFor(b, req, t))] else []
  }

  /** The log after at most one more frame. */
  function WithFrames(w: WalRecovery.WalState, frames: seq<Payload>, page: nat): WalRecovery.WalState
    requires 0 < page <= TWO_64
  {
    if frames == [] then w else WalRecovery.Append(w, frames[0], page)
  }

  /** What handling a request asks of the log and the counter: nothing, unless it is going to be logged. */
  predicate CanHandle(b: Books, w: WalRecovery.WalState, req: TransactionRequest, t: Readings, page: nat) {
    && ReadingsOk(t) && IsInt64(req.amountMinor)
    && (Commits(b, req) ==>
          Loggable(req) && b.counter < TWO_64 && WalRecovery.Room(w, WalPayload(RecordFor(b, req, t)), page))
  }

  /** The passes can be made on the requests waiting. */
  predicate CanMake(v: View, passes: seq<Readings>, page: nat) {
    && 0 < page <= TWO_64 && (forall i :: 0 <= i < |passes| ==> ReadingsOk(passes[i]))
    && CanServe(v.books, v.wal, v.requests, passes, page)
  }

  /** The passes of the loop before the flag reads false, when it is cleared after `|passes|` of them at the latest. */
  function Granted(running: bool, passes: seq<Readings>): seq<Readings> {
    if running then passes else []
  }

  /** Requests popped one per pass of the loop, each with the readings of its pass. */
  function Served(requests: seq<TransactionRequest>, passes: seq<Readings>): (items: seq<Item>)
    ensures |items| == if |requests| <= |passes| then |requests| else |passes|
    decreases |requests|
  {
    if requests == [] || passes == [] then []
    else [Tx(requests[0], passes[0])] + Served(requests[1..], passes[1..])
  }

  /** The requests not served. */
  function Left(requests: seq<TransactionRequest>, passes: seq<Readings>): seq<TransactionRequest> {
    requests[|Served(requests, passes)|..]
  }

  /** The loop leaves no request if and only if it makes at least as many passes as requests are waiting. */
  lemma {:induction false} DrainedExactly(requests: seq<TransactionRequest>, running: bool, passes: seq<Readings>)
    ensures Left(requests, Granted(running, passes)) == [] <==> |requests| <= |Granted(running, passes)|
  {}

  /** The promise to drain fails: with the flag cleared, a waiting request is left, whatever the passes. */
  lemma {:induction false} ShutdownLeavesRequest(req: TransactionRequest, passes: seq<Readings>)
    ensures Left([req], Granted(false, passes)) == [req]
  {}

  /** Every request served can be handled when its turn comes. */
  predicate CanServe(b: Books, w: WalRecovery.WalState, requests: seq<TransactionRequest>, passes: seq<Readings>,
                     page: nat)
    requires 0 < page <= TWO_64
    decreases |requests|
  {
    requests == [] || passes == [] ||
    (&& CanHandle(b, w, requests[0], passes[0], page)
     && CanServe(Process(b, requests[0], passes[0]).0, WithFrames(w, FrameOf(b, requests[0], passes[0]), page),
                 requests[1..], passes[1..], page))
  }

  /** All that a pass of the engine's loop changes. */
  datatype View = Viewed(
    books: Books,
    log: seq<Payload>,
    wal: WalRecovery.WalState,
    requests: seq<TransactionRequest>,
    replies: seq<TxResponseEnvelope>)

  /** `req` has been processed with reply `resp`, its frame logged if it commits; the queues are as they were. */
  predicate Processed(a: View, z: View, req: TransactionRequest, resp: TransactionResponse, t: Readings, page: nat) {
    && CanHandle(a.books, a.wal, req, t, page) && 0 < page <= TWO_64
    && (z.books, resp) == Process(a.books, req, t)
    && z.log == a.log + FrameOf(a.books, req, t)
    && z.wal == WithFrames(a.wal, FrameOf(a.books, req, t), page)
    && z.requests == a.requests && z.replies == a.replies
  }

  /** The reply queue after pushing a response: one of `slots - 1` places, or dropped. */
  function Queued(replies: seq<TxResponseEnvelope>, resp: TransactionResponse, slots: nat): seq<TxResponseEnvelope> {
    if |replies| < slots - 1 then replies + [TxResponseEnvelope([], resp)] else replies
  }

  /** Handling `req`: it is processed and its reply queued unless the reply queue is full. */
  predicate Handled(a: View, z: View, req: TransactionRequest, t: Readings, page: nat, slots: nat) {
    && ReadingsOk(t)
    && var resp := Process(a.books, req, t).1;
    && Processed(a, z.(replies := a.replies), req, resp, t, page)
    && z.replies == Queued(a.replies, resp, slots)
  }

  /** The reply queue after handling `items`, when nothing is taken out of it meanwhile. */
  function QueuedAll(b: Books, replies: seq<TxResponseEnvelope>, items: seq<Item>, slots: nat): seq<TxResponseEnvelope>
    requires AllOk(items)
    decreases |items|
  {
    if items == [] then replies
    else
      var next := if items[0].Tx? then Queued(replies, Reply(b, items[0]), slots) else replies;
      QueuedAll(Handle(b, items[0]), next, items[1..], slots)
  }

  /** How many of `count` replies a queue of `slots - 1` places takes when `queued` wait in it already. */
  function Taken(queued: nat, count: nat, slots: nat): nat {
    if queued + count < slots then count else if queued < slots then slots - 1 - queued else 0
  }

  /**
    What is in the reply queue after handling transactions: what was there, and behind it the replies
    to as many of them as there was room for, the oldest first, each as that transaction was answered
    and with its correlation id. The others are dropped.
   */
  lemma {:induction false} QueuedInOrder(b: Books, replies: seq<TxResponseEnvelope>, items: seq<Item>, slots: nat)
    requires AllOk(items) && (forall j :: 0 <= j < |items| ==> items[j].Tx?)
    ensures var queue, taken := QueuedAll(b, replies, items, slots), Taken(|replies|, |items|, slots);
            && |queue| == |replies| + taken && taken <= |items| && replies <= queue
            && forall j :: 0 <= j < taken ==>
                 && queue[|replies| + j] == TxResponseEnvelope([], Reply(HandleAll(b, items[..j]), items[j]))
                 && queue[|replies| + j].response.correlationId == items[j].req.correlationId
    decreases |items|
  {
    hide Handle, Reply;
    if items != [] {
      var next, after := Queued(replies, Reply(b, items[0]), slots), Handle(b, items[0]);
      var queue, taken := QueuedAll(b, replies, items, slots), Taken(|replies|, |items|, slots);
      QueuedInOrder(after, next, items[1..], slots);
      forall j | 0 <= j < taken
        ensures queue[|replies| + j] == TxResponseEnvelope([], Reply(HandleAll(b, items[..j]), items[j]))
        ensures queue[|replies| + j].response.correlationId == items[j].req.correlationId
      {
        ReplyEchoesId(HandleAll(b, items[..j]), items[j]);
        if j == 0 {
          assert items[..0] == [];
        } else {
          assert items[..j][1..] == items[1..][..j - 1] && items[..j][0] == items[0];
        }
      }
    }
  }

  /** The frames that were in the log before this engine's own. */
  function Inherited(v: View): seq<Payload> {
    if |v.books.log| <= |v.log| then v.log[..|v.log| - |v.books.log|] else []
  }

  /** One pass from `a` to `z`: no request, no change; otherwise the oldest request is taken and handled. */
  predicate Passed(a: View, z: View, t: Readings, page: nat, slots: nat) {
    if a.requests == [] then z == a
    else Handled(a.(requests := a.requests[1..]), z, a.requests[0], t, page, slots)
  }

  /**
    The loop has made the passes granted: as many requests as there were passes are handled in
    order, which leaves none if and only if there were enough passes, their replies are queued, and
    older frames are where they were.
   */
  predicate Ran(a: View, z: View, granted: seq<Readings>, slots: nat) {
    var served := Served(a.requests, granted);
    && AllOk(served)
    && z.books == HandleAll(a.books, served)
    && z.requests == Left(a.requests, granted)
    && (z.requests == [] <==> |a.requests| <= |granted|)
    && z.replies == QueuedAll(a.books, a.replies, served, slots)
    && Inherited(z) == Inherited(a)
  }

  /**
    What a run of the loop leaves in the two queues: the requests behind the first as many as there
    were passes, and behind the older replies those to the requests taken, in order and as far as
    there was room, each with its request's correlation id and as the books answered at its turn.
   */
  lemma {:induction false} RunReplies(a: View, z: View, granted: seq<Readings>, slots: nat)
    requires Ran(a, z, granted, slots)
    ensures var count := if |a.requests| <= |granted| then |a.requests| else |granted|;
            var taken := Taken(|a.replies|, count, slots);
            && z.requests == a.requests[count..]
            && |z.replies| == |a.replies| + taken && taken <= count && a.replies <= z.replies
            && forall j :: 0 <= j < taken ==>
                 && ReadingsOk(granted[j]) && AllOk(Served(a.requests[..j], granted[..j]))
                 && var turn := HandleAll(a.books, Served(a.requests[..j], granted[..j]));
                 && z.replies[|a.replies| + j] ==
                    TxResponseEnvelope([], Process(turn, a.requests[j], granted[j]).1)
                 && z.replies[|a.replies| + j].response.correlationId == a.requests[j].correlationId
  {
    hide Process, HandleAll, QueuedAll;
    var items := Served(a.requests, granted);
    ServedAt(a.requests, granted);
    QueuedInOrder(a.books, a.replies, items, slots);
  }

  /** The items served pair the requests with the passes; so do their beginnings. */
  lemma {:induction false} ServedAt(requests: seq<TransactionRequest>, passes: seq<Readings>)
    ensures var items := Served(requests, passes);
            forall j :: 0 <= j < |items| ==>
              && items[j] == Tx(requests[j], passes[j])
              && Served(requests[..j], passes[..j]) == items[..j]
    decreases |requests|
  {
    if requests != [] && passes != [] {
      ServedAt(requests[1..], passes[1..]);
      var items := Served(requests, passes);
      forall j | 0 <= j < |items|
        ensures items[j] == Tx(requests[j], passes[j]) && Served(requests[..j], passes[..j]) == items[..j]
      {
        if j > 0 {
          assert requests[..j][1..] == requests[1..][..j - 1] && passes[..j][1..] == passes[1..][..j - 1];
          assert requests[..j][0] == requests[0] && passes[..j][0] == passes[0];
        }
      }
    }
  }

  class LedgerEngine {
    const wal: WriteAheadLog
    const requestQueue: SPSCRingBuffer<TransactionRequest>
    const replyQueue: SPSCRingBuffer<TxResponseEnvelope>
    var running: bool
    var accounts: Table
    var idempotencyCache: map<Text, TransactionResponse>
    var uuidCounter: nat
    var txCountTotal: nat
    var txCountWindow: nat
    var totalLatencyWindow: int
    /** The records appended since construction. */
    ghost var committed: seq<WalRecord>

    ghost predicate QueuesOk()
      reads this, requestQueue, requestQueue.buf, replyQueue, replyQueue.buf
    {
      requestQueue.Valid() && replyQueue.Valid()
    }

    /** The log is in storage, and its end is exactly what this engine committed. */
    ghost predicate LogOk()
      reads this, wal, wal.mapped, wal.table, wal.table.entries
    {
      && wal.Valid() && wal.Durable() && AllFits(committed) && |committed| <= |wal.log|
      && wal.log[|wal.log| - |committed|..] == Payloads(committed)
    }

    /** What recovery after a crash needs; it holds at rest and throughout an append. */
    ghost predicate Recoverable()
      reads this, wal, wal.mapped
    {
      && wal.Survives() && AllFits(committed) && |committed| <= |wal.log|
      && wal.log[|wal.log| - |committed|..] == Payloads(committed)
    }

    /** The frames logged before this engine. */
    ghost function Earlier(): seq<Payload>
      reads this, wal
      requires |committed| <= |wal.log|
    {
      wal.log[..|wal.log| - |committed|]
    }

    ghost function Books(): Books
      reads this
    {
      Ledger.Books(accounts, idempotencyCache, uuidCounter, committed, txCountTotal)
    }

    constructor (log: WriteAheadLog, requests: SPSCRingBuffer<TransactionRequest>,
                 replies: SPSCRingBuffer<TxResponseEnvelope>)
      requires log.Valid() && log.Durable() && requests.Valid() && replies.Valid()
      ensures wal == log && requestQueue == requests && replyQueue == replies
      ensures LogOk() && QueuesOk() && Books() == EMPTY_BOOKS && running
    {
      wal, requestQueue, replyQueue := log, requests, replies;
      running := true;
      accounts, idempotencyCache := map[], map[];
      uuidCounter, txCountTotal, txCountWindow, totalLatencyWindow := 0, 0, 0, 0;
      committed := [];
    }

    /** Creates an account with a fresh id and no balance, unless the name is taken; the id is drawn either way. */
    method CreateAccount(req: CreateAccountRequest) returns (resp: CreateAccountResponse)
      requires uuidCounter < TWO_64
      modifies this`accounts, this`uuidCounter
      ensures accounts == Register(old(accounts), req, AccountId(old(uuidCounter)))
      ensures uuidCounter == old(uuidCounter) + 1
      ensures resp == CreateReply(old(accounts), old(uuidCounter), req)
    {
      hide Ascii, Decimal;
      var counter := uuidCounter;
      uuidCounter := uuidCounter + 1;
      var id := AccountId(counter);
      var rest := accounts.Keys;
      while rest != {}
        invariant rest <= accounts.Keys && accounts == old(accounts)
        invariant forall k :: k in accounts && k !in rest ==> accounts[k].name != req.name
        decreases |rest|
      {
        var k :| k in rest;
        if accounts[k].name == req.name {
          return CreateAccountResponse(req.correlationId, id, InternalError, NameTakenMessage(req.name));
        }
        rest := rest - {k};
      }
      accounts := accounts[id := AccountInfo(id, req.name, req.kind, 0)];
      return CreateAccountResponse(req.correlationId, id, Ok, []);
    }

    method GenerateUuid(clock: int) returns (id: Uuid)
      requires IsInt64(clock) && uuidCounter < TWO_64
      modifies this`uuidCounter
      ensures id == TransactionId(clock, old(uuidCounter)) && uuidCounter == old(uuidCounter) + 1
    {
      var counter := uuidCounter;
      uuidCounter := uuidCounter + 1;
      id := TransactionId(clock, counter);
    }

    method ValidateTransaction(req: TransactionRequest) returns (status: TxStatus)
      ensures status == Validate(accounts, req)
    {
      if req.amountMinor <= 0 {
        return InternalError;
      }
      if req.debitAccountId !in accounts || req.creditAccountId !in accounts {
        return AccountNotFound;
      }
      var debitAccount := accounts[req.debitAccountId];
      if debitAccount.kind.Asset? {
        if debitAccount.balance < req.amountMinor {
          return InsufficientFunds;
        }
      }
      return Ok;
    }

    method ApplyTransaction(req: TransactionRequest)
      requires req.debitAccountId in accounts && req.creditAccountId in accounts
      modifies this`accounts
      ensures accounts == Transfer(old(accounts), req.debitAccountId, req.creditAccountId, req.amountMinor)
    {
      var debit := accounts[req.debitAccountId];
      accounts := accounts[req.debitAccountId := debit.(balance := debit.balance - req.amountMinor)];
      var credit := accounts[req.creditAccountId];
      accounts := accounts[req.creditAccountId := credit.(balance := credit.balance + req.amountMinor)];
    }

    /** Makes the record of a transaction durable. */
    method LogRecord(ghost w: WalRecord, payload: Payload)
      requires LogOk() && Fits(w) && payload == WalPayload(w)
      requires WalRecovery.Room(wal.State(), payload, wal.page)
      modifies this`committed, wal, wal.mapped, wal.table, wal.table.entries
      ensures LogOk() && (wal.mapped == old(wal.mapped) || fresh(wal.mapped))
      ensures committed == old(committed) + [w]
      ensures wal.log == old(wal.log) + [WalPayload(w)]
      ensures wal.State() == WalRecovery.Append(old(wal.State()), WalPayload(w), wal.page)
    {
      hide WalPayload, WalRecovery.Append, WalRecovery.Room, Payloads, AllFits;
      hide WriteAheadLog.Valid, WriteAheadLog.Durable;
      ghost var records, frames := committed, wal.log;
      CommittedSuffix(records, frames, w);
      var number := wal.Append(payload);
      committed := records + [w];
    }

    /** Id, payload, durable frame, and only then the balances. */
    method CommitTransaction(req: TransactionRequest, t: Readings) returns (id: Uuid)
      requires LogOk() && ReadingsOk(t) && Loggable(req) && uuidCounter < TWO_64
      requires Validate(accounts, req).Ok?
      requires WalRecovery.Room(wal.State(), WalPayload(RecordFor(Books(), req, t)), wal.page)
      modifies this`accounts, this`uuidCounter, this`committed
      modifies wal, wal.mapped, wal.table, wal.table.entries
      ensures LogOk() && (wal.mapped == old(wal.mapped) || fresh(wal.mapped))
      ensures id == RecordFor(old(Books()), req, t).transactionId
      ensures Books() == Commit(old(Books()), RecordFor(old(Books()), req, t))
      ensures wal.log == old(wal.log) + [WalPayload(RecordFor(old(Books()), req, t))]
      ensures wal.State() ==
              WalRecovery.Append(old(wal.State()), WalPayload(RecordFor(old(Books()), req, t)), wal.page)
    {
      hide WalPayload, TransactionId, WalRecovery.Append, WalRecovery.Room, Payloads, AllFits, Fits, Transfer;
      hide WriteAheadLog.Valid, WriteAheadLog.Durable;
      ghost var w := RecordFor(Books(), req, t);
      FitsWhenStamped(w);
      id := GenerateUuid(t.clock);
      var payload := SerializeForWal(req, id, t.wall);
      LogRecord(w, payload);
      ApplyTransaction(req);
    }

    /** Builds the response, caches it under a non-empty key and counts the transaction. */
    method Respond(req: TransactionRequest, status: TxStatus, id: Uuid, latency: int)
      returns (resp: TransactionResponse)
      modifies this`idempotencyCache, this`txCountTotal, this`txCountWindow, this`totalLatencyWindow
      ensures resp == ResponseTo(req, status, id, latency)
      ensures Books() == Finish(old(Books()), req, resp)
      ensures txCountWindow == old(txCountWindow) + 1 && totalLatencyWindow == old(totalLatencyWindow) + latency
    {
      hide Message;
      var message := Message(status);
      resp := TransactionResponse(req.correlationId, id, status, message, latency);
      if req.idempotencyKey != [] {
        idempotencyCache := idempotencyCache[req.idempotencyKey := resp];
      }
      txCountTotal := txCountTotal + 1;
      txCountWindow := txCountWindow + 1;
      totalLatencyWindow := totalLatencyWindow + latency;
    }

    /** The body of the loop in `run` between taking a request and queueing its reply. */
    method HandleRequest(req: TransactionRequest, t: Readings) returns (resp: TransactionResponse)
      requires LogOk() && CanHandle(Books(), wal.State(), req, t, wal.page)
      modifies this`accounts, this`uuidCounter, this`committed, this`idempotencyCache
      modifies this`txCountTotal, this`txCountWindow, this`totalLatencyWindow
      modifies wal, wal.mapped, wal.table, wal.table.entries
      ensures LogOk() && (wal.mapped == old(wal.mapped) || fresh(wal.mapped))
      ensures (Books(), resp) == Process(old(Books()), req, t)
      ensures wal.log == old(wal.log) + FrameOf(old(Books()), req, t)
      ensures wal.State() == WithFrames(old(wal.State()), FrameOf(old(Books()), req, t), wal.page)
      ensures var hit := req.idempotencyKey in old(idempotencyCache);
              && txCountWindow == old(txCountWindow) + (if hit then 0 else 1)
              && totalLatencyWindow == old(totalLatencyWindow) + (if hit then 0 else t.latency)
    {
      hide WalPayload, TransactionId, WalRecovery.Append, WalRecovery.Room, AllFits, Payloads, Fits;
      hide Commit, Finish, ResponseTo, Loggable, Validate, WriteAheadLog.Valid, WriteAheadLog.Durable;
      if req.idempotencyKey in idempotencyCache {
        var cached := idempotencyCache[req.idempotencyKey];
        return cached.(correlationId := req.correlationId);
      }
      var status := ValidateTransaction(req);
      var id := NIL_UUID;
      if status == Ok {
        id := CommitTransaction(req, t);
      }
      resp := Respond(req, status, id, t.latency);
    }

    /** The log and both queues are in order, and share no storage. */
    ghost predicate Ready()
      reads this, wal, wal.mapped, wal.table, wal.table.entries
      reads requestQueue, requestQueue.buf, replyQueue, replyQueue.buf
    {
      && LogOk() && QueuesOk()
      && requestQueue as object != replyQueue && requestQueue.buf as object != replyQueue.buf
      && requestQueue.buf as object != wal.mapped && replyQueue.buf as object != wal.mapped
      && requestQueue.buf as object != wal.table.entries && replyQueue.buf as object != wal.table.entries
    }

    ghost function View(): View
      reads this, wal, wal.mapped, wal.table, wal.table.entries
      reads requestQueue, requestQueue.buf, replyQueue, replyQueue.buf
      requires Ready()
    {
      Viewed(Books(), wal.log, wal.State(), requestQueue.Contents(), replyQueue.Contents())
    }

    /** Handles a request just taken and queues its reply; the result of the push is ignored. */
    method Serve(req: TransactionRequest, t: Readings)
      requires Ready() && CanHandle(View().books, View().wal, req, t, wal.page)
      modifies this`accounts, this`uuidCounter, this`committed, this`idempotencyCache
      modifies this`txCountTotal, this`txCountWindow, this`totalLatencyWindow
      modifies wal, wal.mapped, wal.table, wal.table.entries, replyQueue`tail, replyQueue.buf
      ensures Ready() && (wal.mapped == old(wal.mapped) || fresh(wal.mapped))
      ensures Handled(old(View()), View(), req, t, wal.page, replyQueue.n)
    {
      ghost var before := View();
      var resp := ProcessTaken(req, t);
      ghost var mid := View();
      QueueReply(resp);
      hide *;
      ProcessedThenQueued(before, mid, View(), req, resp, t, wal.page, replyQueue.n);
    }

    method ProcessTaken(req: TransactionRequest, t: Readings) returns (resp: TransactionResponse)
      requires Ready() && CanHandle(View().books, View().wal, req, t, wal.page)
      modifies this`accounts, this`uuidCounter, this`committed, this`idempotencyCache
      modifies this`txCountTotal, this`txCountWindow, this`totalLatencyWindow
      modifies wal, wal.mapped, wal.table, wal.table.entries
      ensures Ready() && (wal.mapped == old(wal.mapped) || fresh(wal.mapped))
      ensures Processed(old(View()), View(), req, resp, t, wal.page)
    {
      assert 0 < wal.page <= TWO_64;
      hide Processed, CanHandle, Process, WithFrames, FrameOf, AllFits, Payloads;
      hide WriteAheadLog.Valid, WriteAheadLog.Durable;
      hide SPSCRingBuffer.Contents, SPSCRingBuffer.Valid;
      ghost var before := View();
      resp := HandleRequest(req, t);
      ghost var after := View();
      assert after.requests == before.requests && after.replies == before.replies;
      ProcessedParts(before, after, req, resp, t, wal.page);
    }

    method QueueReply(resp: TransactionResponse)
      requires Ready()
      modifies replyQueue`tail, replyQueue.buf
      ensures Ready()
      ensures View() == old(View()).(replies := Queued(old(View()).replies, resp, replyQueue.n))
    {
      hide WriteAheadLog.Valid, WriteAheadLog.Durable, AllFits, Payloads, SPSCRingBuffer.Contents;
      var queued := replyQueue.Push(TxResponseEnvelope([], resp));
    }

    /**
      One pass of the loop in `run`: nothing when no request waits; otherwise the oldest request is
      handled and its reply queued, or dropped when the reply queue is full.
     */
    method RunOnce(t: Readings)
      requires Ready()
      requires View().requests != [] ==>
                 CanHandle(View().books, View().wal, View().requests[0], t, wal.page)
      modifies this`accounts, this`uuidCounter, this`committed, this`idempotencyCache
      modifies this`txCountTotal, this`txCountWindow, this`totalLatencyWindow
      modifies wal, wal.mapped, wal.table, wal.table.entries
      modifies requestQueue`head, replyQueue`tail, replyQueue.buf
      ensures Ready() && (wal.mapped == old(wal.mapped) || fresh(wal.mapped))
      ensures Passed(old(View()), View(), t, wal.page, replyQueue.n)
    {
      ghost var before := View();
      var popped, req := TakeRequest();
      hide *;
      if popped {
        Serve(req, t);
        TakenThenHandled(before, View(), t, wal.page, replyQueue.n);
      } else {
        NothingTaken(before, t, wal.page, replyQueue.n);
      }
    }

    /** Takes the oldest request, if there is one. */
    method TakeRequest() returns (popped: bool, req: TransactionRequest)
      requires Ready()
      modifies requestQueue`head
      ensures Ready()
      ensures popped <==> old(View()).requests != []
      ensures popped ==> req == old(View()).requests[0]
                         && View() == old(View()).(requests := old(View()).requests[1..])
      ensures !popped ==> View() == old(View())
    {
      hide WriteAheadLog.Valid, WriteAheadLog.Durable, AllFits, Payloads, SPSCRingBuffer.Contents;
      ghost var before := View();
      popped, req := requestQueue.Pop();
      if popped {
        assert req == before.requests[0];
      }
    }

    /**
      `run` when no request arrives and another thread shuts the engine down after `|passes|` passes,
      if that has not happened before: the waiting requests are handled in order, as many as there
      were passes, their replies are queued in that order as far as there is room, and older frames
      stay in the log. Requests beyond the passes stay in the queue.
     */
    method Run(passes: seq<Readings>)
      requires Ready() && CanMake(View(), Granted(running, passes), wal.page)
      modifies this`running, this`accounts, this`uuidCounter, this`committed, this`idempotencyCache
      modifies this`txCountTotal, this`txCountWindow, this`totalLatencyWindow
      modifies wal, wal.mapped, wal.table, wal.table.entries
      modifies requestQueue`head, replyQueue`tail, replyQueue.buf
      ensures Ready() && !running
      ensures Ran(old(View()), View(), Granted(old(running), passes), replyQueue.n)
      ensures !old(running) ==> View() == old(View())
    {
      hide *;
      ghost var granted, start := Granted(running, passes), View();
      RemainingStart(start, granted, wal.page, replyQueue.n);
      GrantedParts(running, passes);
      var i := 0;
      if i == |passes| {
        Shutdown();
      }
      while running
        invariant 0 <= i <= |granted| && Ready()
        invariant running <==> i < |granted|
        invariant wal.mapped == old(wal.mapped) || fresh(wal.mapped)
        invariant Remaining(start, View(), granted, i, wal.page, replyQueue.n)
        invariant i == 0 ==> View() == start
        decreases |granted| - i
      {
        ghost var before := View();
        RemainingHead(start, before, granted, i, wal.page, replyQueue.n);
        RunOnce(passes[i]);
        RemainingStep(start, before, View(), granted, i, wal.page, replyQueue.n);
        i := i + 1;
        if i == |passes| {
          Shutdown();
        }
      }
      RemainingEnd(start, View(), granted, wal.page, replyQueue.n);
    }

    /** Makes the next reading of the flag false; requests and all else stay as they are. */
    method Shutdown()
      modifies this`running
      ensures !running
      ensures old(Ready()) ==> Ready() && View() == old(View())
    {
      hide WriteAheadLog.Valid, WriteAheadLog.Durable, AllFits, Payloads, SPSCRingBuffer.Contents, SPSCRingBuffer.Valid;
      running := false;
    }

    /** Zeroes the window; totals and books stay. */
    method ResetMetricsWindow()
      modifies this`txCountWindow, this`totalLatencyWindow
      ensures txCountWindow == 0 && totalLatencyWindow == 0
    {
      txCountWindow := 0;
      totalLatencyWindow := 0;
    }
  }

  /** At rest the engine is recoverable; `Wal.WriteAheadLog.Store` keeps it so throughout an append. */
  lemma RecoverableAtRest(e: LedgerEngine)
    requires e.LogOk()
    ensures e.Recoverable()
  {}

  /**
    Whatever a crash makes of the storage and the mapping of an engine whose committed records are
    those of a run, replay returns the earlier frames and its own; and it returns a recovery of that
    run's last state if and only if nothing else than the frame under way can be read behind them.
   */
  lemma {:induction false} EngineCrash(e: LedgerEngine, es: seq<Event>, img: seq<byte>)
    requires e.Recoverable() && LedgerRuns.RunOk(START, es) && LedgerRuns.Run(START, es).books.log == e.committed
    requires CrashImage(img, e.wal.disk, e.wal.mapped[..], e.wal.log)
    ensures e.wal.log <= Scan(img, 0).frames
    ensures RecoveryComplete(img, e.Earlier(), LedgerRuns.Run(START, es)) <==>
              TailOk(img, |Image(e.wal.log)|, LedgerRuns.Run(START, es))
  {
    hide LedgerRuns.Run, LedgerRuns.RunOk, WalRecovery.Stored, CrashImage, RecoveryComplete, Payloads, AllFits, TailOk;
    hide Scan, Image;
    assert e.wal.log == e.Earlier() + Payloads(e.committed);
    CrashRecovery(es, e.Earlier(), e.wal.disk, e.wal.mapped[..], img);
  }

  /** Replay yields the engine's log, whose last part decodes to its records, and these fold to its table. */
  ghost predicate EngineRecovered(e: LedgerEngine, img: seq<byte>)
    reads e, e.wal
  {
    && Scan(img, 0).inRange && Scan(img, 0).frames == e.wal.log
    && |e.committed| <= |e.wal.log| && DecodeAll(e.wal.log[|e.Earlier()|..]) == Some(e.committed)
    && Covers(e.accounts, e.committed) && Fold(ZeroBalances(e.accounts), e.committed) == e.accounts
  }

  /**
    For an engine at rest that has handled any stream: replay of what a crash leaves begins with its
    log, and gives back exactly its records and its balances if and only if no frame can be read
    behind the log.
   */
  lemma {:induction false} EngineRestCrash(e: LedgerEngine, items: seq<Item>, img: seq<byte>)
    requires e.LogOk() && AllOk(items) && StreamFits(EMPTY_BOOKS, items) && e.Books() == HandleAll(EMPTY_BOOKS, items)
    requires CrashImage(img, e.wal.disk, e.wal.mapped[..], e.wal.log)
    ensures e.wal.log <= Scan(img, 0).frames
    ensures EngineRecovered(e, img) <==> NoFrameAt(img, |Image(e.wal.log)|)
  {
    hide *;
    StreamBalances(items);
    RestParts(e, items);
    CrashTail(img, e.wal.disk, e.wal.mapped[..], e.wal.log, []);
    DecodePayloads(e.committed);
    RecoveredMeans(e, img);
  }

  lemma {:induction false} RestParts(e: LedgerEngine, items: seq<Item>)
    requires e.LogOk() && AllOk(items) && e.Books() == HandleAll(EMPTY_BOOKS, items)
    ensures WalRecovery.Stored(e.wal.disk, e.wal.mapped[..], e.wal.log) && AllFit(e.wal.log)
    ensures AllFits(e.committed) && |e.committed| <= |e.wal.log|
    ensures e.wal.log[|e.Earlier()|..] == Payloads(e.committed)
    ensures HandleAll(EMPTY_BOOKS, items).accounts == e.accounts && HandleAll(EMPTY_BOOKS, items).log == e.committed
  {
    hide HandleAll;
  }

  lemma {:induction false} RecoveredMeans(e: LedgerEngine, img: seq<byte>)
    requires |e.committed| <= |e.wal.log| && DecodeAll(e.wal.log[|e.Earlier()|..]) == Some(e.committed)
    requires Covers(e.accounts, e.committed) && Fold(ZeroBalances(e.accounts), e.committed) == e.accounts
    ensures EngineRecovered(e, img) <==> Scan(img, 0).inRange && Scan(img, 0).frames == e.wal.log
  {
    hide Scan, DecodeAll, Fold, ZeroBalances, Covers;
  }

  /** After any stream the balances are the log folded over zero balances. */
  lemma {:induction false} StreamBalances(items: seq<Item>)
    requires AllOk(items) && StreamFits(EMPTY_BOOKS, items)
    ensures var b := HandleAll(EMPTY_BOOKS, items);
            Covers(b.accounts, b.log) && Fold(ZeroBalances(b.accounts), b.log) == b.accounts
  {
    StreamIsRun(START, items);
    var es := StreamEvents(EMPTY_BOOKS, items);
    StartInv();
    LedgerRuns.RunInv(START, es);
    hide LedgerRuns.Run, LedgerRuns.RunOk, HandleAll, StreamFits, StreamEvents, Fold, ZeroBalances;
    assert AppliedLog(LedgerRuns.Run(START, es)) == HandleAll(EMPTY_BOOKS, items).log;
  }

  lemma {:induction false} ServedOk(requests: seq<TransactionRequest>, passes: seq<Readings>)
    requires forall i :: 0 <= i < |passes| ==> ReadingsOk(passes[i])
    ensures AllOk(Served(requests, passes))
    decreases |requests|
  {
    if requests != [] && passes != [] {
      ServedOk(requests[1..], passes[1..]);
    }
  }

  /**
    After `i` passes the requests still waiting can be served in the passes left, which leads to the
    books and the waiting requests that serving all passes from the start leads to.
   */
  ghost predicate Remaining(start: View, v: View, passes: seq<Readings>, i: nat, page: nat, slots: nat) {
    && i <= |passes| && 0 < page <= TWO_64 && CanServe(v.books, v.wal, v.requests, passes[i..], page)
    && var all, left := Served(start.requests, passes), Served(v.requests, passes[i..]);
    && AllOk(all) && AllOk(left)
    && HandleAll(v.books, left) == HandleAll(start.books, all)
    && v.requests[|left|..] == start.requests[|all|..]
    && QueuedAll(v.books, v.replies, left, slots) == QueuedAll(start.books, start.replies, all, slots)
    && Inherited(v) == Inherited(start)
  }

  lemma {:induction false} GrantedParts(running: bool, passes: seq<Readings>)
    ensures Granted(running, passes) == if running then passes else []
  {}

  lemma {:induction false} RemainingStart(v: View, passes: seq<Readings>, page: nat, slots: nat)
    requires CanMake(v, passes, page)
    ensures Remaining(v, v, passes, 0, page, slots)
  {
    ServedOk(v.requests, passes);
    assert passes[0..] == passes;
  }

  lemma {:induction false} RemainingHead(start: View, v: View, passes: seq<Readings>, i: nat, page: nat, slots: nat)
    requires i < |passes| && Remaining(start, v, passes, i, page, slots)
    ensures v.requests != [] ==> CanHandle(v.books, v.wal, v.requests[0], passes[i], page)
  {
    hide CanHandle, Process, WithFrames, FrameOf;
    assert passes[i..][0] == passes[i];
  }

  /** A request adds its frame to the log exactly when it adds its record to the books. */
  lemma {:induction false} InheritedStays(a: View, z: View, req: TransactionRequest, t: Readings, page: nat, slots: nat)
    requires Handled(a, z, req, t, page, slots)
    ensures Inherited(z) == Inherited(a)
  {
    hide WalPayload, TransactionId, Transfer, Message, WithFrames, Queued, WalRecovery.Room;
  }

  /** One pass serves the oldest request, if there is one. */
  lemma {:induction false} RemainingStep(start: View, a: View, z: View, passes: seq<Readings>, i: nat,
                                         page: nat, slots: nat)
    requires i < |passes|
    requires Remaining(start, a, passes, i, page, slots) && Passed(a, z, passes[i], page, slots)
    ensures Remaining(start, z, passes, i + 1, page, slots)
  {
    hide Process, WithFrames, FrameOf, CanHandle;
    var now := passes[i..];
    assert now[0] == passes[i] && now[1..] == passes[i + 1..];
    if a.requests != [] {
      InheritedStays(a.(requests := a.requests[1..]), z, a.requests[0], now[0], page, slots);
      hide Inherited;
      var items := Served(a.requests, now);
      assert items[0] == Tx(a.requests[0], now[0]);
      assert items[1..] == Served(a.requests[1..], now[1..]);
      assert a.requests[|items|..] == a.requests[1..][|items| - 1..];
    }
  }

  lemma {:induction false} RemainingEnd(start: View, v: View, passes: seq<Readings>, page: nat, slots: nat)
    requires Remaining(start, v, passes, |passes|, page, slots)
    ensures Ran(start, v, passes, slots)
  {
    DrainedExactly(start.requests, true, passes);
  }

  lemma {:induction false} ProcessedParts(a: View, z: View, req: TransactionRequest, resp: TransactionResponse,
                                          t: Readings, page: nat)
    requires CanHandle(a.books, a.wal, req, t, page) && 0 < page <= TWO_64
    requires (z.books, resp) == Process(a.books, req, t)
    requires z.log == a.log + FrameOf(a.books, req, t)
    requires z.wal == WithFrames(a.wal, FrameOf(a.books, req, t), page)
    requires z.requests == a.requests && z.replies == a.replies
    ensures Processed(a, z, req, resp, t, page)
  {
    hide Process, FrameOf, WithFrames;
  }

  lemma {:induction false} ProcessedThenQueued(a: View, m: View, z: View, req: TransactionRequest,
                                               resp: TransactionResponse, t: Readings, page: nat, slots: nat)
    requires Processed(a, m, req, resp, t, page) && z == m.(replies := Queued(m.replies, resp, slots))
    ensures Handled(a, z, req, t, page, slots)
  {
    hide Process, FrameOf, WithFrames;
  }

  lemma {:induction false} TakenThenHandled(a: View, z: View, t: Readings, page: nat, slots: nat)
    requires a.requests != [] && Handled(a.(requests := a.requests[1..]), z, a.requests[0], t, page, slots)
    ensures Passed(a, z, t, page, slots)
  {}

  lemma {:induction false} NothingTaken(a: View, t: Readings, page: nat, slots: nat)
    requires a.requests == []
    ensures Passed(a, a, t, page, slots)
  {}

  lemma FitsWhenStamped(w: WalRecord)
    requires Loggable(w.request) && IsInt64(w.timestamp)
    ensures Fits(w)
  {}

  lemma {:induction false} CommittedSuffix(committed: seq<WalRecord>, log: seq<Payload>, w: WalRecord)
    requires AllFits(committed) && Fits(w) && |committed| <= |log|
    requires log[|log| - |committed|..] == Payloads(committed)
    ensures AllFits(committed + [w])
    ensures var after := log + [WalPayload(w)];
            after[|after| - |committed + [w]|..] == Payloads(committed + [w])
  {
    hide WalPayload;
    PayloadsSnoc(committed, w);
  }
}
