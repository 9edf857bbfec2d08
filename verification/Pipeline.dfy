/**
  Requests through the first ring, replies through the second, as the two threads run: the I/O
  thread pushes requests and pops replies, the engine thread pops requests and pushes replies,
  ignoring whether a reply push was refused. Items are the correlation ids.

  Loads may be stale, with one restriction the memory order gives: a thread that has seen a request
  published also sees the reply releases its publisher made before publishing it.
 */
module Pipeline {
  import opened Masks
  import opened RingIndex
  import opened RingProtocol
  import opened Types

  datatype Pipe = Pipe(
    req: Ring<Uuid>,
    rep: Ring<Uuid>,
    known: seq<nat>,        // replies popped when the request tail took each of its values
    hand: Option<Uuid>,     // the request the engine is working on
    lost: nat,              // reply pushes refused
    source: seq<nat>)       // for each reply pushed, the number of the request it answers

  datatype PipeEvent =
    | IoSend(e: Event<Uuid>)
    | IoReceive(e: Event<Uuid>)
    | EngineTake(e: Event<Uuid>)
    | EngineReply(e: Event<Uuid>)

  predicate IsPush(e: Event<Uuid>) {
    e.PushStart? || e.PushLoadHead? || e.PushWrite? || e.PushPublish?
  }

  function StartPipe(n: nat): Pipe {
    Pipe(Init(n), Init(n), [0], None, 0, [])
  }

  /** Each thread performs one ring operation at a time; the engine answers what it has taken. */
  predicate PipeEnabled(p: Pipe, ev: PipeEvent) {
    match ev
    case IoSend(e) => IsPush(e) && Enabled(p.req, e) && p.rep.consumer.CIdle?
    case IoReceive(e) => !IsPush(e) && Enabled(p.rep, e) && p.req.producer.PIdle?
    case EngineTake(e) => !IsPush(e) && Enabled(p.req, e) && p.hand.None?
    case EngineReply(e) =>
      IsPush(e) && Enabled(p.rep, e) && p.hand.Some? && (e.PushStart? ==> e.val == p.hand.value)
  }

  ghost predicate PipeShape(p: Pipe, n: nat) {
    Shape(p.req, n) && Shape(p.rep, n) && |p.known| == |p.req.tails|
  }

  /** The number of the request taken last. */
  function LastTaken(p: Pipe): nat {
    if p.req.popped == [] then 0 else |p.req.popped| - 1
  }

  ghost function PipeNext(p: Pipe, ev: PipeEvent, n: nat): Pipe
    requires PipeShape(p, n) && PipeEnabled(p, ev)
  {
    match ev
    case IoSend(e) =>
      p.(req := Next(p.req, e, n), known := if e.PushPublish? then p.known + [|p.rep.popped|] else p.known)
    case IoReceive(e) => p.(rep := Next(p.rep, e, n))
    case EngineTake(e) =>
      var req := Next(p.req, e, n);
      if e.PopLoadTail? then
        p.(req := req, rep := p.rep.(seenHead := Max(p.rep.seenHead, p.known[e.version])))
      else if e.PopPublish? && p.req.consumer.cell.Holds? then
        p.(req := req, hand := Some(p.req.consumer.cell.value))
      else
        p.(req := req)
    case EngineReply(e) =>
      var rep := Next(p.rep, e, n);
      if e.PushLoadHead? && rep.producer.PIdle? then p.(rep := rep, hand := None, lost := p.lost + 1)
      else if e.PushPublish? then p.(rep := rep, hand := None, source := p.source + [LastTaken(p)])
      else p.(rep := rep)
  }

  // ---- The invariant --------------------------------------------------------------------------

  ghost predicate KnownOk(p: Pipe, n: nat) {
    && PipeShape(p, n)
    && (forall i, j :: 0 <= i <= j < |p.known| ==> p.known[i] <= p.known[j])
    && (forall j :: 0 <= j < |p.known| ==> p.known[j] <= |p.rep.popped|)
    && p.req.seenTail < |p.known| && p.known[p.req.seenTail] <= p.rep.seenHead
  }

  ghost predicate ThreadsOk(p: Pipe) {
    && (p.hand.None? ==> p.rep.producer.PIdle?)
    && (p.hand.Some? ==> p.req.consumer.CIdle?)
    && (p.hand.Some? && !p.rep.producer.PIdle? ==> p.rep.producer.val == p.hand.value)
  }

  /** As long as nothing was lost, the replies sent are the requests taken, in order. */
  ghost predicate Matched(p: Pipe) {
    p.lost == 0 ==>
      && |p.req.popped| <= |p.req.pushed|
      && |p.req.popped| == |p.rep.pushed| + (if p.hand.Some? then 1 else 0)
      && (forall i :: 0 <= i < |p.rep.pushed| ==> p.rep.pushed[i] == p.req.pushed[i])
      && (p.hand.Some? ==> p.hand.value == p.req.pushed[|p.rep.pushed|])
  }

  /**
    Every request taken is answered, lost or in hand, and the replies pushed answer some of the
    requests, in order.
   */
  ghost predicate Accounted(p: Pipe) {
    && |p.source| == |p.rep.pushed|
    && |p.req.popped| == |p.rep.pushed| + p.lost + (if p.hand.Some? then 1 else 0)
    && |p.req.popped| <= |p.req.pushed|
    && (forall i, j :: 0 <= i < j < |p.source| ==> p.source[i] < p.source[j])
    && (forall i :: 0 <= i < |p.source| ==>
          && p.source[i] + (if p.hand.Some? then 1 else 0) < |p.req.popped|
          && p.rep.pushed[i] == p.req.pushed[p.source[i]])
    && (p.hand.Some? ==> p.hand.value == p.req.pushed[LastTaken(p)])
  }

  ghost predicate Linked(p: Pipe, n: nat) {
    Inv(p.req, n) && Inv(p.rep, n) && KnownOk(p, n) && ThreadsOk(p) && Matched(p)
  }

  ghost predicate PipeInv(p: Pipe, n: nat) {
    Linked(p, n) && Accounted(p)
  }

  /** Knowing of more releases than it has loaded does not mislead the producer. */
  lemma FresherView(s: Ring<Uuid>, v: nat, n: nat)
    requires Inv(s, n) && s.seenHead <= v <= |s.popped|
    ensures Inv(s.(seenHead := v), n)
  {}

  lemma IoSendInv(p: Pipe, e: Event<Uuid>, n: nat, k: nat)
    requires RingSize(n, k) && Linked(p, n) && PipeEnabled(p, IoSend(e))
    ensures Linked(PipeNext(p, IoSend(e), n), n)
  {
    StepInv(p.req, e, n, k);
    hide ProducerOk, ConsumerOk, SlotsOk, Fifo;
  }

  lemma IoReceiveInv(p: Pipe, e: Event<Uuid>, n: nat, k: nat)
    requires RingSize(n, k) && Linked(p, n) && PipeEnabled(p, IoReceive(e))
    ensures Linked(PipeNext(p, IoReceive(e), n), n)
  {
    StepInv(p.rep, e, n, k);
    hide ProducerOk, ConsumerOk, SlotsOk, Fifo;
  }

  lemma EngineTakeInv(p: Pipe, e: Event<Uuid>, n: nat, k: nat)
    requires RingSize(n, k) && Linked(p, n) && PipeEnabled(p, EngineTake(e))
    ensures Linked(PipeNext(p, EngineTake(e), n), n)
  {
    StepInv(p.req, e, n, k);
    if e.PopLoadTail? {
      FresherView(p.rep, Max(p.rep.seenHead, p.known[e.version]), n);
    }
    hide ProducerOk, SlotsOk, Fifo;
  }

  lemma EngineReplyInv(p: Pipe, e: Event<Uuid>, n: nat, k: nat)
    requires RingSize(n, k) && Linked(p, n) && PipeEnabled(p, EngineReply(e))
    ensures Linked(PipeNext(p, EngineReply(e), n), n)
  {
    StepInv(p.rep, e, n, k);
    hide ProducerOk, ConsumerOk, SlotsOk, Fifo;
  }

  /** The sides a step leaves alone. */
  lemma IoStepParts(p: Pipe, ev: PipeEvent, n: nat)
    requires PipeShape(p, n) && PipeEnabled(p, ev) && (ev.IoSend? || ev.IoReceive?)
    ensures var q := PipeNext(p, ev, n);
            && q.source == p.source && q.lost == p.lost && q.hand == p.hand
            && q.req.popped == p.req.popped && q.rep.pushed == p.rep.pushed && p.req.pushed <= q.req.pushed
  {}

  lemma TakeStepParts(p: Pipe, e: Event<Uuid>, n: nat)
    requires Linked(p, n) && PipeEnabled(p, EngineTake(e))
    ensures var q := PipeNext(p, EngineTake(e), n);
            && q.source == p.source && q.lost == p.lost
            && q.req.pushed == p.req.pushed && q.rep.pushed == p.rep.pushed
            && (if e.PopPublish? then
                  && |q.req.popped| == |p.req.popped| + 1 && |p.req.popped| < |p.req.pushed|
                  && q.hand == Some(p.req.pushed[|p.req.popped|])
                else q.req.popped == p.req.popped && q.hand == p.hand)
  {
    hide ProducerOk, SlotsOk, Fifo, ThreadsOk, Matched;
  }

  lemma ReplyStepParts(p: Pipe, e: Event<Uuid>, n: nat)
    requires PipeShape(p, n) && ThreadsOk(p) && PipeEnabled(p, EngineReply(e))
    ensures var q := PipeNext(p, EngineReply(e), n);
            && q.req == p.req && p.hand.Some?
            && (|| (q.source == p.source && q.lost == p.lost && q.rep.pushed == p.rep.pushed && q.hand == p.hand)
                || (q.source == p.source && q.lost == p.lost + 1 && q.rep.pushed == p.rep.pushed && q.hand == None)
                || (&& q.source == p.source + [LastTaken(p)] && q.lost == p.lost
                    && q.rep.pushed == p.rep.pushed + [p.hand.value] && q.hand == None))
  {}

  lemma AccountedIo(p: Pipe, q: Pipe)
    requires Accounted(p) && q.source == p.source && q.lost == p.lost && q.hand == p.hand
    requires q.req.popped == p.req.popped && q.rep.pushed == p.rep.pushed && p.req.pushed <= q.req.pushed
    ensures Accounted(q)
  {}

  lemma AccountedTake(p: Pipe, q: Pipe)
    requires Accounted(p) && q.source == p.source && q.lost == p.lost && p.hand.None?
    requires q.req.pushed == p.req.pushed && q.rep.pushed == p.rep.pushed
    requires || (q.req.popped == p.req.popped && q.hand == p.hand)
             || (&& |q.req.popped| == |p.req.popped| + 1 && |p.req.popped| < |p.req.pushed|
                 && q.hand == Some(p.req.pushed[|p.req.popped|]))
    ensures Accounted(q)
  {}

  lemma AccountedReply(p: Pipe, q: Pipe)
    requires Accounted(p) && q.req == p.req && p.hand.Some?
    requires || (q.source == p.source && q.lost == p.lost && q.rep.pushed == p.rep.pushed && q.hand == p.hand)
             || (q.source == p.source && q.lost == p.lost + 1 && q.rep.pushed == p.rep.pushed && q.hand == None)
             || (&& q.source == p.source + [LastTaken(p)] && q.lost == p.lost
                 && q.rep.pushed == p.rep.pushed + [p.hand.value] && q.hand == None)
    ensures Accounted(q)
  {}

  /** What the engine takes is the next request; what it publishes is the reply in its hand. */
  lemma AccountedStep(p: Pipe, ev: PipeEvent, n: nat)
    requires Linked(p, n) && Accounted(p) && PipeEnabled(p, ev)
    ensures Accounted(PipeNext(p, ev, n))
  {
    match ev {
      case IoSend(_) => IoStepParts(p, ev, n); AccountedIo(p, PipeNext(p, ev, n));
      case IoReceive(_) => IoStepParts(p, ev, n); AccountedIo(p, PipeNext(p, ev, n));
      case EngineTake(e) => TakeStepParts(p, e, n); AccountedTake(p, PipeNext(p, ev, n));
      case EngineReply(e) => ReplyStepParts(p, e, n); AccountedReply(p, PipeNext(p, ev, n));
    }
    hide *;
  }

  lemma PipeStepInv(p: Pipe, ev: PipeEvent, n: nat, k: nat)
    requires RingSize(n, k) && PipeInv(p, n) && PipeEnabled(p, ev)
    ensures PipeInv(PipeNext(p, ev, n), n)
  {
    match ev {
      case IoSend(e) => IoSendInv(p, e, n, k);
      case IoReceive(e) => IoReceiveInv(p, e, n, k);
      case EngineTake(e) => EngineTakeInv(p, e, n, k);
      case EngineReply(e) => EngineReplyInv(p, e, n, k);
    }
    AccountedStep(p, ev, n);
    hide Linked, Accounted, PipeNext, PipeEnabled;
  }

  /** What the invariant says of the requests' ring. */
  lemma RequestsOfInv(p: Pipe, n: nat)
    requires PipeInv(p, n)
    ensures PipeShape(p, n) && Inv(p.req, n) && Shape(p.req, n)
    ensures p.req.seenHead <= |p.req.popped| && |p.req.popped| <= p.req.seenTail <= |p.req.pushed|
    ensures |p.req.heads| == |p.req.popped| + 1 && |p.req.tails| == |p.req.pushed| + 1
  {
    hide Matched, Accounted, SlotsOk, Fifo, ProducerOk, ConsumerOk;
  }

  /** And of the replies' ring. */
  lemma RepliesOfInv(p: Pipe, n: nat)
    requires PipeInv(p, n)
    ensures PipeShape(p, n) && Inv(p.rep, n) && p.rep.seenHead <= |p.rep.popped|
  {
    hide Matched, Accounted, SlotsOk, Fifo, ProducerOk, ConsumerOk;
  }

  // ---- Runs -----------------------------------------------------------------------------------

  ghost predicate PipeRunOk(p: Pipe, es: seq<PipeEvent>, n: nat)
    decreases |es|
  {
    es == [] || (PipeShape(p, n) && PipeEnabled(p, es[0]) && PipeRunOk(PipeNext(p, es[0], n), es[1..], n))
  }

  ghost function PipeRun(p: Pipe, es: seq<PipeEvent>, n: nat): Pipe
    requires PipeRunOk(p, es, n)
    decreases |es|
  {
    if es == [] then p else PipeRun(PipeNext(p, es[0], n), es[1..], n)
  }

  lemma {:induction false} PipeRunInv(p: Pipe, es: seq<PipeEvent>, n: nat, k: nat)
    requires RingSize(n, k) && PipeInv(p, n) && PipeRunOk(p, es, n)
    ensures PipeInv(PipeRun(p, es, n), n)
    decreases |es|
  {
    hide PipeInv, PipeNext;
    if es != [] {
      PipeStepInv(p, es[0], n, k);
      PipeRunInv(PipeNext(p, es[0], n), es[1..], n, k);
    }
  }

  lemma StartPipeInv(n: nat, k: nat)
    requires RingSize(n, k)
    ensures PipeInv(StartPipe(n), n)
  {
    WrapIsMod(0, n, k);
    InitInv<Uuid>(n);
  }

  /** While no reply push was refused, the ids delivered are a prefix of the ids accepted. */
  lemma {:induction false} RepliesInOrder(es: seq<PipeEvent>, n: nat, k: nat)
    requires RingSize(n, k) && PipeRunOk(StartPipe(n), es, n) && PipeRun(StartPipe(n), es, n).lost == 0
    ensures var p := PipeRun(StartPipe(n), es, n);
            && |p.rep.popped| <= |p.req.pushed|
            && forall i :: 0 <= i < |p.rep.popped| ==> p.rep.popped[i] == Holds(p.req.pushed[i])
  {
    StartPipeInv(n, k);
    PipeRunInv(StartPipe(n), es, n, k);
    var p := PipeRun(StartPipe(n), es, n);
    hide PipeRun, PipeRunOk, ProducerOk, ConsumerOk, SlotsOk, KnownOk, ThreadsOk;
  }

  /**
    Replies lost or not: every request taken is answered, lost or in hand, and the ids delivered are
    those of some of the requests accepted, in the order in which they were accepted.
   */
  lemma {:induction false} RepliesInSubsequence(es: seq<PipeEvent>, n: nat, k: nat)
    requires RingSize(n, k) && PipeRunOk(StartPipe(n), es, n)
    ensures var p := PipeRun(StartPipe(n), es, n);
            && |p.req.popped| == |p.rep.pushed| + p.lost + (if p.hand.Some? then 1 else 0)
            && |p.rep.popped| <= |p.rep.pushed| == |p.source|
            && (forall i, j :: 0 <= i < j < |p.source| ==> p.source[i] < p.source[j])
            && (forall i :: 0 <= i < |p.rep.popped| ==>
                  p.source[i] < |p.req.pushed| && p.rep.popped[i] == Holds(p.req.pushed[p.source[i]]))
  {
    StartPipeInv(n, k);
    PipeRunInv(StartPipe(n), es, n, k);
    hide PipeRun, PipeRunOk, ProducerOk, ConsumerOk, SlotsOk, KnownOk, ThreadsOk, Matched;
  }

  /** At each acceptance at most `N - 1` requests, the new one included, were without a delivered reply. */
  ghost predicate Throttled(p: Pipe, n: nat) {
    forall j :: 0 <= j < |p.known| ==> j - p.known[j] <= n - 1
  }

  /** The reply ring is never found full while requests are throttled. */
  lemma RoomForReply(p: Pipe, v: nat, n: nat, k: nat)
    requires RingSize(n, k) && PipeInv(p, n) && Throttled(p, n) && p.lost == 0
    requires PipeEnabled(p, EngineReply(PushLoadHead(v)))
    ensures PipeNext(p, EngineReply(PushLoadHead(v)), n).lost == 0
  {
    RoomCount(p, v, n);
    hide Linked, Accounted, Throttled, RingSize, Inv, Wrap;
    RepliesOfInv(p, n);
    FullTestExact(p.rep, v, n, k);
  }

  /** Beyond any head the engine may load, fewer than `N - 1` replies are pushed. */
  lemma RoomCount(p: Pipe, v: nat, n: nat)
    requires PipeInv(p, n) && Throttled(p, n) && p.lost == 0
    requires PipeEnabled(p, EngineReply(PushLoadHead(v)))
    ensures |p.rep.pushed| - v < n - 1
  {
    hide Inv;
    RequestsOfInv(p, n);
    var taken := |p.req.popped|;
    assert p.known[taken] <= p.known[p.req.seenTail] <= p.rep.seenHead <= v;
  }

  lemma ThrottledBefore(p: Pipe, ev: PipeEvent, n: nat)
    requires PipeShape(p, n) && PipeEnabled(p, ev) && Throttled(PipeNext(p, ev, n), n)
    ensures Throttled(p, n)
  {
    var q := PipeNext(p, ev, n);
    forall j | 0 <= j < |p.known|
      ensures j - p.known[j] <= n - 1
    {
      assert q.known[j] == p.known[j];
    }
  }

  lemma {:induction false} ThrottledThroughout(p: Pipe, es: seq<PipeEvent>, n: nat)
    requires PipeRunOk(p, es, n) && Throttled(PipeRun(p, es, n), n)
    ensures Throttled(p, n)
    decreases |es|
  {
    hide Throttled, PipeNext;
    if es != [] {
      ThrottledThroughout(PipeNext(p, es[0], n), es[1..], n);
      ThrottledBefore(p, es[0], n);
    }
  }

  lemma {:induction false} NothingLost(p: Pipe, es: seq<PipeEvent>, n: nat, k: nat)
    requires RingSize(n, k) && PipeInv(p, n) && PipeRunOk(p, es, n) && p.lost == 0
    requires Throttled(PipeRun(p, es, n), n)
    ensures PipeRun(p, es, n).lost == 0
    decreases |es|
  {
    hide Throttled, PipeInv;
    if es != [] {
      var ev, q := es[0], PipeNext(p, es[0], n);
      PipeStepInv(p, ev, n, k);
      ThrottledThroughout(p, es, n);
      if ev.EngineReply? && ev.e.PushLoadHead? {
        RoomForReply(p, ev.e.version, n, k);
      }
      assert q.lost == 0;
      hide PipeNext;
      NothingLost(q, es[1..], n, k);
    }
  }

  /**
    If no more than `N - 1` accepted requests are ever without a delivered reply, no reply is lost,
    stale loads or not, although the engine ignores the result of its pushes.
   */
  lemma {:induction false} NoReplyLost(es: seq<PipeEvent>, n: nat, k: nat)
    requires RingSize(n, k) && PipeRunOk(StartPipe(n), es, n)
    requires Throttled(PipeRun(StartPipe(n), es, n), n)
    ensures PipeRun(StartPipe(n), es, n).lost == 0
  {
    StartPipeInv(n, k);
    NothingLost(StartPipe(n), es, n, k);
  }

  // ---- Losing a reply -------------------------------------------------------------------------

  /**
    A reply is lost in exactly one way: the engine's push, with the head it loaded, finds `N - 1`
    replies pushed beyond that head.
   */
  lemma LostExactly(p: Pipe, ev: PipeEvent, n: nat, k: nat)
    requires RingSize(n, k) && PipeInv(p, n) && PipeEnabled(p, ev)
    ensures PipeNext(p, ev, n).lost == p.lost || PipeNext(p, ev, n).lost == p.lost + 1
    ensures PipeNext(p, ev, n).lost == p.lost + 1 <==>
              ev.EngineReply? && ev.e.PushLoadHead? && |p.rep.pushed| - ev.e.version == n - 1
  {
    hide Linked, Accounted, RingSize, Inv, Wrap;
    RepliesOfInv(p, n);
    RequestsOfInv(p, n);
    if ev.EngineReply? && ev.e.PushLoadHead? {
      FullTestExact(p.rep, ev.e.version, n, k);
    }
  }

  /** The I/O thread sends a request, with the newest head loaded; `count` requests came before. */
  function Send(id: Uuid, count: nat): seq<PipeEvent> {
    [IoSend(PushStart(id)), IoSend(PushLoadHead(count)), IoSend(PushWrite), IoSend(PushPublish)]
  }

  /** The engine takes it. */
  function Take(count: nat): seq<PipeEvent> {
    [EngineTake(PopStart), EngineTake(PopLoadTail(count + 1)), EngineTake(PopTake), EngineTake(PopPublish)]
  }

  /** The engine tries to answer it, and does when there is room. */
  function Try(id: Uuid): seq<PipeEvent> {
    [EngineReply(PushStart(id)), EngineReply(PushLoadHead(0))]
  }

  function Answer(id: Uuid): seq<PipeEvent> {
    Try(id) + [EngineReply(PushWrite), EngineReply(PushPublish)]
  }

  function Rounds(id: Uuid, count: nat): seq<PipeEvent> {
    if count == 0 then [] else Rounds(id, count - 1) + (Send(id, count - 1) + (Take(count - 1) + Answer(id)))
  }

  ghost predicate Resting(p: Pipe) {
    && p.req.producer.PIdle? && p.req.consumer.CIdle? && p.rep.producer.PIdle? && p.rep.consumer.CIdle?
  }

  /** Both threads rest; `sent` requests were sent, `taken` taken and `answered` answered, and no reply was received. */
  ghost predicate At(p: Pipe, n: nat, sent: nat, taken: nat, answered: nat, hand: Option<Uuid>) {
    && PipeInv(p, n) && Resting(p) && p.hand == hand && p.lost == 0
    && |p.req.pushed| == sent && |p.req.popped| == taken && |p.rep.pushed| == answered && |p.rep.popped| == 0
  }

  lemma {:induction false} PipeFirst(p: Pipe, ev: PipeEvent, es: seq<PipeEvent>, n: nat)
    requires PipeShape(p, n) && PipeEnabled(p, ev) && PipeRunOk(PipeNext(p, ev, n), es, n)
    ensures PipeRunOk(p, [ev] + es, n) && PipeRun(p, [ev] + es, n) == PipeRun(PipeNext(p, ev, n), es, n)
  {
    hide PipeNext, PipeEnabled, PipeShape;
    assert ([ev] + es)[1..] == es;
  }

  lemma {:induction false} PipeAppend(p: Pipe, a: seq<PipeEvent>, b: seq<PipeEvent>, n: nat)
    requires PipeRunOk(p, a, n) && PipeRunOk(PipeRun(p, a, n), b, n)
    ensures PipeRunOk(p, a + b, n) && PipeRun(p, a + b, n) == PipeRun(PipeRun(p, a, n), b, n)
    decreases |a|
  {
    hide PipeNext, PipeEnabled, PipeShape;
    if a == [] {
      assert a + b == b;
    } else {
      assert (a + b)[1..] == a[1..] + b;
      PipeAppend(PipeNext(p, a[0], n), a[1..], b, n);
    }
  }

  lemma {:induction false} PipeTwo(p: Pipe, a: PipeEvent, b: PipeEvent, n: nat)
    requires PipeShape(p, n) && PipeEnabled(p, a)
    requires PipeShape(PipeNext(p, a, n), n) && PipeEnabled(PipeNext(p, a, n), b)
    ensures PipeRunOk(p, [a, b], n) && PipeRun(p, [a, b], n) == PipeNext(PipeNext(p, a, n), b, n)
  {
    hide PipeNext, PipeEnabled, PipeShape;
    PipeFirst(PipeNext(p, a, n), b, [], n);
    PipeFirst(p, a, [b], n);
    assert [b] + [] == [b] && [a] + [b] == [a, b];
  }

  lemma {:induction false} PipeFour(p: Pipe, a: PipeEvent, b: PipeEvent, c: PipeEvent, d: PipeEvent, n: nat)
    requires PipeShape(p, n) && PipeEnabled(p, a)
    requires PipeShape(PipeNext(p, a, n), n) && PipeEnabled(PipeNext(p, a, n), b)
    requires var q := PipeNext(PipeNext(p, a, n), b, n);
             && PipeShape(q, n) && PipeEnabled(q, c)
             && PipeShape(PipeNext(q, c, n), n) && PipeEnabled(PipeNext(q, c, n), d)
    ensures PipeRunOk(p, [a, b, c, d], n)
    ensures PipeRun(p, [a, b, c, d], n) == PipeNext(PipeNext(PipeNext(PipeNext(p, a, n), b, n), c, n), d, n)
  {
    hide PipeNext, PipeEnabled, PipeShape;
    PipeTwo(p, a, b, n);
    PipeTwo(PipeNext(PipeNext(p, a, n), b, n), c, d, n);
    PipeAppend(p, [a, b], [c, d], n);
    assert [a, b] + [c, d] == [a, b, c, d];
  }

  /** An enabled step keeps the invariant, and both rings keep their shape. */
  lemma OneStep(p: Pipe, ev: PipeEvent, n: nat, k: nat)
    requires RingSize(n, k) && PipeInv(p, n) && PipeEnabled(p, ev)
    ensures PipeShape(p, n) && PipeInv(PipeNext(p, ev, n), n) && PipeShape(PipeNext(p, ev, n), n)
  {
    hide Accounted, Inv, Matched, PipeEnabled, PipeNext, PipeShape;
    PipeStepInv(p, ev, n, k);
  }

  lemma {:induction false} SendOne(p: Pipe, id: Uuid, n: nat, k: nat, c: nat)
    requires RingSize(n, k) && At(p, n, c, c, c, None)
    ensures PipeRunOk(p, Send(id, c), n) && At(PipeRun(p, Send(id, c), n), n, c + 1, c, c, None)
    ensures PipeRun(p, Send(id, c), n).req.pushed[c] == id
  {
    hide Linked, Accounted, RingSize, Inv, Wrap, PipeRun, PipeRunOk;
    var e1, e2, e3, e4 := IoSend(PushStart(id)), IoSend(PushLoadHead(c)), IoSend(PushWrite), IoSend(PushPublish);
    OneStep(p, e1, n, k);
    var p1 := PipeNext(p, e1, n);
    RequestsOfInv(p1, n);
    FullTestExact(p1.req, c, n, k);
    TwoSlots(n, k);
    OneStep(p1, e2, n, k);
    var p2 := PipeNext(p1, e2, n);
    RequestsOfInv(p2, n);
    SlotInRing(p2.req, n);
    OneStep(p2, e3, n, k);
    var p3 := PipeNext(p2, e3, n);
    OneStep(p3, e4, n, k);
    PipeFour(p, e1, e2, e3, e4, n);
  }

  lemma TwoSlots(n: nat, k: nat)
    requires RingSize(n, k)
    ensures n >= 2
  {
    WrapNext(0, n, k);
  }

  lemma SlotInRing(s: Ring<Uuid>, n: nat)
    requires Inv(s, n)
    ensures s.producer.PRoom? ==> s.producer.t < |s.buf|
    ensures s.consumer.CReady? ==> s.consumer.h < |s.buf|
  {
    hide SlotsOk, Fifo;
  }

  /** The request has been found, and is next to be taken. */
  ghost predicate FoundOne(p: Pipe, n: nat, c: nat) {
    && PipeInv(p, n) && p.req.consumer.CReady?
    && p.req.producer.PIdle? && p.rep.producer.PIdle? && p.rep.consumer.CIdle?
    && p.hand == None && p.lost == 0
    && |p.req.pushed| == c + 1 && |p.req.popped| == c && |p.rep.pushed| == c && |p.rep.popped| == 0
  }

  /** The request pop has begun, and is next to load the tail. */
  ghost predicate Looking(p: Pipe, n: nat, c: nat) {
    && PipeInv(p, n) && p.req.consumer.CLoaded?
    && p.req.producer.PIdle? && p.rep.producer.PIdle? && p.rep.consumer.CIdle?
    && p.hand == None && p.lost == 0
    && |p.req.pushed| == c + 1 && |p.req.popped| == c && |p.rep.pushed| == c && |p.rep.popped| == 0
  }

  lemma LookOne(p: Pipe, n: nat, k: nat, c: nat)
    requires RingSize(n, k) && At(p, n, c + 1, c, c, None)
    ensures var e := EngineTake(PopStart);
            && PipeShape(p, n) && PipeEnabled(p, e)
            && Looking(PipeNext(p, e, n), n, c) && PipeNext(p, e, n).req.pushed == p.req.pushed
  {
    hide Linked, Accounted, RingSize, Inv;
    OneStep(p, EngineTake(PopStart), n, k);
  }

  lemma SeeOne(p: Pipe, n: nat, k: nat, c: nat)
    requires RingSize(n, k) && Looking(p, n, c)
    ensures var e := EngineTake(PopLoadTail(c + 1));
            && PipeShape(p, n) && PipeEnabled(p, e)
            && FoundOne(PipeNext(p, e, n), n, c) && PipeNext(p, e, n).req.pushed == p.req.pushed
  {
    hide Linked, Accounted, RingSize, Inv;
    RequestsOfInv(p, n);
    TwoSlots(n, k);
    EmptyTestExact(p.req, c + 1, n);
    OneStep(p, EngineTake(PopLoadTail(c + 1)), n, k);
  }

  lemma {:induction false} FindOne(p: Pipe, n: nat, k: nat, c: nat)
    requires RingSize(n, k) && At(p, n, c + 1, c, c, None)
    ensures var e1, e2 := EngineTake(PopStart), EngineTake(PopLoadTail(c + 1));
            && PipeRunOk(p, [e1, e2], n)
            && var q := PipeRun(p, [e1, e2], n);
            && FoundOne(q, n, c) && q.req.pushed == p.req.pushed
  {
    hide PipeNext, PipeEnabled, PipeShape, PipeInv, PipeRun, PipeRunOk, At, Looking, FoundOne, RingSize;
    LookOne(p, n, k, c);
    SeeOne(PipeNext(p, EngineTake(PopStart), n), n, k, c);
    PipeTwo(p, EngineTake(PopStart), EngineTake(PopLoadTail(c + 1)), n);
  }

  lemma {:induction false} HoldOne(p: Pipe, id: Uuid, n: nat, k: nat, c: nat)
    requires RingSize(n, k) && FoundOne(p, n, c) && p.req.pushed[c] == id
    ensures var e3, e4 := EngineTake(PopTake), EngineTake(PopPublish);
            PipeRunOk(p, [e3, e4], n) && At(PipeRun(p, [e3, e4], n), n, c + 1, c + 1, c, Some(id))
  {
    hide Linked, Accounted, RingSize, Inv, Wrap, PipeRun, PipeRunOk;
    var e3, e4 := EngineTake(PopTake), EngineTake(PopPublish);
    RequestsOfInv(p, n);
    SlotInRing(p.req, n);
    TwoSlots(n, k);
    ReadSourceFilled(p.req, n);
    OneStep(p, e3, n, k);
    OneStep(PipeNext(p, e3, n), e4, n, k);
    PipeTwo(p, e3, e4, n);
  }

  lemma {:induction false} TakeOne(p: Pipe, id: Uuid, n: nat, k: nat, c: nat)
    requires RingSize(n, k) && At(p, n, c + 1, c, c, None) && p.req.pushed[c] == id
    ensures PipeRunOk(p, Take(c), n) && At(PipeRun(p, Take(c), n), n, c + 1, c + 1, c, Some(id))
  {
    hide PipeNext, PipeEnabled, PipeInv, PipeRun, PipeRunOk;
    var e1, e2 := EngineTake(PopStart), EngineTake(PopLoadTail(c + 1));
    var e3, e4 := EngineTake(PopTake), EngineTake(PopPublish);
    FindOne(p, n, k, c);
    HoldOne(PipeRun(p, [e1, e2], n), id, n, k, c);
    PipeAppend(p, [e1, e2], [e3, e4], n);
    assert [e1, e2] + [e3, e4] == Take(c);
  }

  /** The reply has found room, and is next to be written. */
  ghost predicate RoomFound(p: Pipe, n: nat, c: nat, id: Uuid) {
    && PipeInv(p, n) && p.rep.producer.PRoom?
    && p.req.producer.PIdle? && p.req.consumer.CIdle? && p.rep.consumer.CIdle?
    && p.hand == Some(id) && p.lost == 0
    && |p.req.pushed| == c + 1 && |p.req.popped| == c + 1 && |p.rep.pushed| == c && |p.rep.popped| == 0
  }

  /** The reply push has begun, and is next to load the head. */
  ghost predicate Asking(p: Pipe, n: nat, sent: nat, answered: nat, id: Uuid) {
    && PipeInv(p, n) && p.rep.producer.PLoaded?
    && p.req.producer.PIdle? && p.req.consumer.CIdle? && p.rep.consumer.CIdle?
    && p.hand == Some(id) && p.lost == 0
    && |p.req.pushed| == sent && |p.req.popped| == sent && |p.rep.pushed| == answered && |p.rep.popped| == 0
  }

  lemma AskOne(p: Pipe, id: Uuid, n: nat, k: nat, sent: nat, answered: nat)
    requires RingSize(n, k) && At(p, n, sent, sent, answered, Some(id))
    ensures var e := EngineReply(PushStart(id));
            PipeShape(p, n) && PipeEnabled(p, e) && Asking(PipeNext(p, e, n), n, sent, answered, id)
  {
    hide Linked, Accounted, RingSize, Inv;
    RepliesOfInv(p, n);
    PipeStepInv(p, EngineReply(PushStart(id)), n, k);
  }

  lemma RoomOne(p: Pipe, id: Uuid, n: nat, k: nat, c: nat)
    requires RingSize(n, k) && Asking(p, n, c + 1, c, id) && c < n - 1
    ensures var e := EngineReply(PushLoadHead(0));
            PipeShape(p, n) && PipeEnabled(p, e) && RoomFound(PipeNext(p, e, n), n, c, id)
  {
    hide Linked, Accounted, RingSize, Inv, Wrap;
    RepliesOfInv(p, n);
    FullTestExact(p.rep, 0, n, k);
    PipeStepInv(p, EngineReply(PushLoadHead(0)), n, k);
  }

  lemma {:induction false} TryOne(p: Pipe, id: Uuid, n: nat, k: nat, c: nat)
    requires RingSize(n, k) && At(p, n, c + 1, c + 1, c, Some(id)) && c < n - 1
    ensures PipeRunOk(p, Try(id), n) && RoomFound(PipeRun(p, Try(id), n), n, c, id)
  {
    hide PipeNext, PipeEnabled, PipeShape, PipeInv, PipeRun, PipeRunOk, At, RoomFound, RingSize;
    var e := EngineReply(PushStart(id));
    AskOne(p, id, n, k, c + 1, c);
    var q := PipeNext(p, e, n);
    RoomOne(q, id, n, k, c);
    AskedInv(q, n, c + 1, c, id);
    PipeTwo(p, e, EngineReply(PushLoadHead(0)), n);
  }

  lemma AskedInv(p: Pipe, n: nat, sent: nat, answered: nat, id: Uuid)
    requires Asking(p, n, sent, answered, id)
    ensures PipeShape(p, n) && PipeInv(p, n)
  {
    RepliesOfInv(p, n);
  }

  lemma {:induction false} WriteOne(p: Pipe, id: Uuid, n: nat, k: nat, c: nat)
    requires RingSize(n, k) && RoomFound(p, n, c, id)
    ensures var e3, e4 := EngineReply(PushWrite), EngineReply(PushPublish);
            PipeRunOk(p, [e3, e4], n) && At(PipeRun(p, [e3, e4], n), n, c + 1, c + 1, c + 1, None)
  {
    hide Linked, Accounted, RingSize, Inv, Wrap, PipeRun, PipeRunOk;
    var e3, e4 := EngineReply(PushWrite), EngineReply(PushPublish);
    RepliesOfInv(p, n);
    SlotInRing(p.rep, n);
    OneStep(p, e3, n, k);
    OneStep(PipeNext(p, e3, n), e4, n, k);
    PipeTwo(p, e3, e4, n);
  }

  lemma {:induction false} AnswerOne(p: Pipe, id: Uuid, n: nat, k: nat, c: nat)
    requires RingSize(n, k) && At(p, n, c + 1, c + 1, c, Some(id)) && c < n - 1
    ensures PipeRunOk(p, Answer(id), n) && At(PipeRun(p, Answer(id), n), n, c + 1, c + 1, c + 1, None)
  {
    hide PipeNext, PipeEnabled, PipeInv, PipeRun, PipeRunOk, At, RoomFound;
    TryOne(p, id, n, k, c);
    WriteOne(PipeRun(p, Try(id), n), id, n, k, c);
    PipeAppend(p, Try(id), [EngineReply(PushWrite), EngineReply(PushPublish)], n);
  }

  lemma LoseAsked(p: Pipe, id: Uuid, n: nat, k: nat)
    requires RingSize(n, k) && n > 0 && Asking(p, n, n, n - 1, id)
    ensures var e := EngineReply(PushLoadHead(0));
            PipeShape(p, n) && PipeEnabled(p, e) && PipeNext(p, e, n).lost == 1
  {
    hide Linked, Accounted, RingSize, Inv, Wrap;
    RepliesOfInv(p, n);
    FullTestExact(p.rep, 0, n, k);
  }

  lemma {:induction false} LoseOne(p: Pipe, id: Uuid, n: nat, k: nat)
    requires RingSize(n, k) && n > 0 && At(p, n, n, n, n - 1, Some(id))
    ensures PipeRunOk(p, Try(id), n) && PipeRun(p, Try(id), n).lost == 1
  {
    hide PipeNext, PipeEnabled, PipeShape, PipeInv, PipeRun, PipeRunOk, At, Asking, RingSize;
    var e := EngineReply(PushStart(id));
    AskOne(p, id, n, k, n, n - 1);
    LoseAsked(PipeNext(p, e, n), id, n, k);
    PipeTwo(p, e, EngineReply(PushLoadHead(0)), n);
  }

  /** One request sent, taken and answered. */
  lemma {:induction false} RoundOne(p: Pipe, id: Uuid, n: nat, k: nat, c: nat)
    requires RingSize(n, k) && At(p, n, c, c, c, None) && c < n - 1
    ensures var round := Send(id, c) + (Take(c) + Answer(id));
            PipeRunOk(p, round, n) && At(PipeRun(p, round, n), n, c + 1, c + 1, c + 1, None)
  {
    hide At, PipeRun, PipeRunOk, Send, Take, Answer, RingSize;
    SendOne(p, id, n, k, c);
    var q := PipeRun(p, Send(id, c), n);
    TakeOne(q, id, n, k, c);
    AnswerOne(PipeRun(q, Take(c), n), id, n, k, c);
    PipeAppend(q, Take(c), Answer(id), n);
    PipeAppend(p, Send(id, c), Take(c) + Answer(id), n);
  }

  /** `count` requests sent, taken and answered, with no reply received. */
  lemma {:induction false} RoundsReach(id: Uuid, n: nat, k: nat, count: nat)
    requires RingSize(n, k) && count <= n - 1
    ensures PipeRunOk(StartPipe(n), Rounds(id, count), n)
    ensures At(PipeRun(StartPipe(n), Rounds(id, count), n), n, count, count, count, None)
    decreases count
  {
    if count == 0 {
      StartPipeInv(n, k);
      hide PipeInv;
    } else {
      hide At, PipeRun, PipeRunOk, Send, Take, Answer, RingSize, StartPipe;
      var c := count - 1;
      RoundsReach(id, n, k, c);
      RoundOne(PipeRun(StartPipe(n), Rounds(id, c), n), id, n, k, c);
      PipeAppend(StartPipe(n), Rounds(id, c), Send(id, c) + (Take(c) + Answer(id)), n);
    }
  }

  /** The run is possible and loses one reply. */
  ghost predicate LosesOne(p: Pipe, es: seq<PipeEvent>, n: nat) {
    PipeRunOk(p, es, n) && PipeRun(p, es, n).lost == 1
  }

  /** A run that loses a reply: `full` answered requests whose replies nobody receives, and one more. */
  function LosingRun(id: Uuid, full: nat): seq<PipeEvent> {
    Rounds(id, full) + OneMore(id, full)
  }

  function OneMore(id: Uuid, full: nat): seq<PipeEvent> {
    Send(id, full) + (Take(full) + Try(id))
  }

  lemma {:induction false} LoseNext(p: Pipe, id: Uuid, n: nat, k: nat, full: nat)
    requires RingSize(n, k) && n == full + 1 && At(p, n, full, full, full, None)
    ensures LosesOne(p, OneMore(id, full), n)
  {
    hide At, PipeRun, PipeRunOk, Send, Take, Try, RingSize;
    SendOne(p, id, n, k, full);
    var q := PipeRun(p, Send(id, full), n);
    TakeOne(q, id, n, k, full);
    LoseOne(PipeRun(q, Take(full), n), id, n, k);
    PipeAppend(q, Take(full), Try(id), n);
    PipeAppend(p, Send(id, full), Take(full) + Try(id), n);
  }

  lemma {:induction false} LoseAfter(p: Pipe, a: seq<PipeEvent>, b: seq<PipeEvent>, n: nat)
    requires PipeRunOk(p, a, n) && LosesOne(PipeRun(p, a, n), b, n)
    ensures LosesOne(p, a + b, n)
  {
    hide PipeRun, PipeRunOk;
    PipeAppend(p, a, b, n);
  }

  /** For every ring size, a reply is lost in a run from the start. */
  lemma {:induction false} ReplyLost(id: Uuid, n: nat, k: nat)
    requires RingSize(n, k)
    ensures n > 0 && LosesOne(StartPipe(n), LosingRun(id, n - 1), n)
  {
    WrapNext(0, n, k);
    var full: nat := n - 1;
    RoundsReach(id, n, k, full);
    hide At, PipeRun, PipeRunOk, StartPipe, Rounds, OneMore, RingSize, LosesOne;
    var p := PipeRun(StartPipe(n), Rounds(id, full), n);
    LoseNext(p, id, n, k, full);
    LoseAfter(StartPipe(n), Rounds(id, full), OneMore(id, full), n);
  }
}
