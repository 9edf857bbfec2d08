/**
  Idempotency as stream equivalence: a stream of transactions and account creations has the effect
  of the same stream with later repeats of each non-empty key left out.
 */
module Idempotency {
  import opened Masks
  import opened Bytes
  import opened Types
  import opened RecordCodec
  import opened Accounts
  import opened Ledger
  import opened LedgerRuns
  import WalFormat

  datatype Item =
    | Tx(req: TransactionRequest, readings: Readings)
    | Create(create: CreateAccountRequest)

  predicate ItemOk(i: Item) {
    i.Tx? ==> ReadingsOk(i.readings)
  }

  predicate AllOk(items: seq<Item>) {
    forall i :: 0 <= i < |items| ==> ItemOk(items[i])
  }

  /** The books after one item. */
  function Handle(b: Books, item: Item): Books
    requires ItemOk(item)
  {
    match item
    case Tx(req, t) => Process(b, req, t).0
    case Create(create) => b.(counter := b.counter + 1, accounts := Register(b.accounts, create, AccountId(b.counter)))
  }

  function HandleAll(b: Books, items: seq<Item>): Books
    requires AllOk(items)
    decreases |items|
  {
    if items == [] then b else HandleAll(Handle(b, items[0]), items[1..])
  }

  predicate Repeat(item: Item, seen: set<Text>) {
    item.Tx? && item.req.idempotencyKey in seen
  }

  function Seen(item: Item, seen: set<Text>): set<Text> {
    if item.Tx? && item.req.idempotencyKey != [] then seen + {item.req.idempotencyKey} else seen
  }

  /** The stream without the transactions whose key has been seen before. */
  function Dedup(items: seq<Item>, seen: set<Text>): (r: seq<Item>)
    ensures AllOk(items) ==> AllOk(r)
    decreases |items|
  {
    if items == [] then []
    else if Repeat(items[0], seen) then Dedup(items[1..], seen)
    else [items[0]] + Dedup(items[1..], Seen(items[0], seen))
  }

  function Transactions(items: seq<Item>): nat
    decreases |items|
  {
    if items == [] then 0 else (if items[0].Tx? then 1 else 0) + Transactions(items[1..])
  }

  /** The empty key is never cached, and the cache holds exactly the keys seen. */
  lemma CacheKeys(b: Books, item: Item)
    requires ItemOk(item) && [] !in b.cache
    ensures [] !in Handle(b, item).cache
    ensures !Repeat(item, b.cache.Keys) ==> Handle(b, item).cache.Keys == Seen(item, b.cache.Keys)
    ensures Handle(b, item).txCount == b.txCount + if item.Tx? && !Repeat(item, b.cache.Keys) then 1 else 0
    ensures Repeat(item, b.cache.Keys) ==> Handle(b, item) == b
  {
    hide Validate, Transfer, Message, TransactionId, Register, AccountId;
  }

  /**
    Leaving the repeats out changes nothing in the books: accounts, balances, cache, log, counter
    and transaction count. The count is that of the transactions left.
   */
  lemma {:induction false} StreamEquivalence(b: Books, items: seq<Item>)
    requires AllOk(items) && [] !in b.cache
    ensures HandleAll(b, items) == HandleAll(b, Dedup(items, b.cache.Keys))
    ensures HandleAll(b, items).txCount == b.txCount + Transactions(Dedup(items, b.cache.Keys))
    decreases |items|
  {
    hide Handle;
    if items != [] {
      CacheKeys(b, items[0]);
      StreamEquivalence(Handle(b, items[0]), items[1..]);
      if !Repeat(items[0], b.cache.Keys) {
        var rest := Dedup(items[1..], Seen(items[0], b.cache.Keys));
        assert ([items[0]] + rest)[1..] == rest;
      }
    }
  }

  // ---- Replies --------------------------------------------------------------------------------

  /** What a cached key answers, whatever else is processed in between. */
  lemma CacheStable(b: Books, item: Item, key: Text)
    requires ItemOk(item) && key in b.cache
    ensures key in Handle(b, item).cache && Handle(b, item).cache[key] == b.cache[key]
  {
    hide Validate, Transfer, Message, TransactionId, Register, AccountId;
  }

  lemma {:induction false} CacheStableOverRun(b: Books, items: seq<Item>, key: Text)
    requires AllOk(items) && key in b.cache
    ensures key in HandleAll(b, items).cache && HandleAll(b, items).cache[key] == b.cache[key]
    decreases |items|
  {
    hide Handle;
    if items != [] {
      CacheStable(b, items[0], key);
      CacheStableOverRun(Handle(b, items[0]), items[1..], key);
    }
  }

  /** The reply to a transaction handled in state `b`. */
  function Reply(b: Books, item: Item): TransactionResponse
    requires ItemOk(item) && item.Tx?
  {
    Process(b, item.req, item.readings).1
  }

  /** A reply is what the cache answers from then on. */
  lemma ReplyIsCached(b: Books, item: Item)
    requires ItemOk(item) && item.Tx? && item.req.idempotencyKey != []
    ensures var key := item.req.idempotencyKey;
            && key in Handle(b, item).cache
            && Reply(b, item) == Handle(b, item).cache[key].(correlationId := item.req.correlationId)
  {
    hide Validate, Transfer, Message, TransactionId;
  }

  /**
    Whatever is handled in between, and whatever else the later request says, a repeated key is
    answered with the first response under the new correlation id, and changes nothing.
   */
  lemma {:induction false} RepeatAnswered(b: Books, first: Item, between: seq<Item>, again: Item)
    requires ItemOk(first) && AllOk(between) && ItemOk(again)
    requires first.Tx? && again.Tx?
    requires first.req.idempotencyKey == again.req.idempotencyKey != []
    ensures var later := HandleAll(Handle(b, first), between);
            && Reply(later, again) == Reply(b, first).(correlationId := again.req.correlationId)
            && Handle(later, again) == later
  {
    hide Validate, Transfer, Message, TransactionId, Register, AccountId;
    var key := first.req.idempotencyKey;
    ReplyIsCached(b, first);
    CacheStableOverRun(Handle(b, first), between, key);
    hide HandleAll;
  }

  /** Every reply carries the correlation id of its own request. */
  lemma {:induction false} ReplyEchoesId(b: Books, item: Item)
    requires ItemOk(item) && item.Tx?
    ensures Reply(b, item).correlationId == item.req.correlationId
  {
    hide Validate, Transfer, Message, TransactionId;
  }

  // ---- Streams and runs -----------------------------------------------------------------------

  /** Drawing an id and registering the account, uninterrupted, is the creation of a stream. */
  lemma {:induction false} StepsMakeCreate(m: Machine, create: CreateAccountRequest)
    requires m.io.IoIdle? && Enabled(m, Draw(create))
    ensures var events := [Draw(create), Event.Insert];
            RunOk(m, events) && Run(m, events) == m.(books := Handle(m.books, Create(create)))
  {
    hide AccountId, Process;
    var m1 := Next(m, Draw(create));
    NoSteps(Next(m1, Event.Insert));
    RunFirst(m1, Event.Insert, []);
    RunFirst(m, Draw(create), [Event.Insert]);
    assert [Draw(create)] + [Event.Insert] == [Draw(create), Event.Insert];
  }

  function EventsOf(b: Books, item: Item): seq<Event> {
    match item
    case Tx(req, t) => EventsFor(b, req, t)
    case Create(create) => [Draw(create), Event.Insert]
  }

  function StreamEvents(b: Books, items: seq<Item>): seq<Event>
    requires AllOk(items)
    decreases |items|
  {
    if items == [] then [] else EventsOf(b, items[0]) + StreamEvents(Handle(b, items[0]), items[1..])
  }

  /** The assumptions of a run on one item: 64-bit amounts, ids to draw, and a payload that fits a frame. */
  predicate ItemFits(b: Books, item: Item) {
    match item
    case Tx(req, t) =>
      && ReadingsOk(t) && IsInt64(req.amountMinor)
      && (Commits(b, req) ==>
            b.counter < TWO_64 && |WalPayload(WalRecord(NIL_UUID, req, t.wall))| <= WalFormat.MAX_PAYLOAD)
    case Create(_) => b.counter < TWO_64
  }

  predicate StreamFits(b: Books, items: seq<Item>)
    requires AllOk(items)
    decreases |items|
  {
    items == [] || (ItemFits(b, items[0]) && StreamFits(Handle(b, items[0]), items[1..]))
  }

  lemma {:induction false} ItemIsRun(m: Machine, item: Item)
    requires m.phase.Idle? && m.io.IoIdle? && ItemOk(item) && ItemFits(m.books, item)
    ensures var events := EventsOf(m.books, item);
            && RunOk(m, events)
            && var after := Run(m, events);
            && after.books == Handle(m.books, item) && after.phase.Idle? && after.io.IoIdle?
  {
    hide Process, EventsFor, RunOk, Run, WalPayload, Register, AccountId;
    match item {
      case Tx(req, t) => StepsMakeProcess(m, req, t);
      case Create(create) => StepsMakeCreate(m, create);
    }
  }

  /** Handling any stream from the start is a run, so all that holds of every run holds of what it leads to. */
  lemma {:induction false} StreamIsRun(m: Machine, items: seq<Item>)
    requires m.phase.Idle? && m.io.IoIdle? && AllOk(items) && StreamFits(m.books, items)
    ensures var events := StreamEvents(m.books, items);
            && RunOk(m, events)
            && var after := Run(m, events);
            && after.books == HandleAll(m.books, items) && after.phase.Idle? && after.io.IoIdle?
    decreases |items|
  {
    hide Handle, EventsOf, ItemFits, RunOk, Run;
    if items == [] {
      NoSteps(m);
    } else {
      ItemIsRun(m, items[0]);
      var after := Run(m, EventsOf(m.books, items[0]));
      StreamIsRun(after, items[1..]);
      RunAppend(m, EventsOf(m.books, items[0]), StreamEvents(after.books, items[1..]));
    }
  }
}
