/**
  The ring buffer under concurrency: one producer and one consumer thread, each performing its
  loads, its slot access and its index store as separate steps in any interleaving.

  Every value ever stored to an index is kept. A load of the other thread's index may return any
  stored value not older than the last one the loading thread saw, as the memory order of the
  atomics allows.
 */
module RingProtocol {
  import opened RingIndex

  datatype Cell<T> = Unwritten | Holds(value: T) | Moved

  datatype Producer<T> =
    | PIdle
    | PLoaded(val: T, t: nat)      // own index read
    | PRoom(val: T, t: nat)        // found not full
    | PWritten(val: T, t: nat)     // slot filled, index not yet published

  datatype Consumer<T> =
    | CIdle
    | CLoaded(h: nat)              // own index read
    | CReady(h: nat)               // found not empty
    | CTaken(h: nat, cell: Cell<T>) // slot moved out, index not yet published

  datatype Ring<T> = Ring(
    buf: seq<Cell<T>>,
    heads: seq<nat>,               // values stored to head_, oldest first
    tails: seq<nat>,               // values stored to tail_, oldest first
    seenHead: nat,                 // newest entry of heads the producer has loaded
    seenTail: nat,                 // newest entry of tails the consumer has loaded
    producer: Producer<T>,
    consumer: Consumer<T>,
    pushed: seq<T>,                // arguments of the pushes that published
    popped: seq<Cell<T>>)          // slot contents the pops delivered

  datatype Event<T> =
    | PushStart(val: T)
    | PushLoadHead(version: nat)
    | PushWrite
    | PushPublish
    | PopStart
    | PopLoadTail(version: nat)
    | PopTake
    | PopPublish

  function Init<T>(n: nat): Ring<T>
  {
    Ring(seq(n, _ => Unwritten), [0], [0], 0, 0, PIdle, CIdle, [], [])
  }

  ghost predicate Shape<T>(s: Ring<T>, n: nat) {
    n > 0 && |s.buf| == n && s.heads != [] && s.tails != []
  }

  /** The step is the next one of its thread, and a load returns an allowed value. */
  predicate Enabled<T>(s: Ring<T>, e: Event<T>) {
    match e
    case PushStart(_) => s.producer.PIdle?
    case PushLoadHead(v) => s.producer.PLoaded? && s.seenHead <= v < |s.heads|
    case PushWrite => s.producer.PRoom? && s.producer.t < |s.buf|
    case PushPublish => s.producer.PWritten?
    case PopStart => s.consumer.CIdle?
    case PopLoadTail(v) => s.consumer.CLoaded? && s.seenTail <= v < |s.tails|
    case PopTake => s.consumer.CReady? && s.consumer.h < |s.buf|
    case PopPublish => s.consumer.CTaken?
  }

  ghost function Next<T>(s: Ring<T>, e: Event<T>, n: nat): Ring<T>
    requires Shape(s, n) && Enabled(s, e)
  {
    match e
    case PushStart(val) => s.(producer := PLoaded(val, s.tails[|s.tails| - 1]))
    case PushLoadHead(v) =>
      var p := s.producer;
      s.(seenHead := v,
         producer := if Wrap(p.t + 1, n) == s.heads[v] then PIdle else PRoom(p.val, p.t))
    case PushWrite =>
      var p := s.producer;
      s.(buf := s.buf[p.t := Holds(p.val)], producer := PWritten(p.val, p.t))
    case PushPublish =>
      var p := s.producer;
      s.(tails := s.tails + [Wrap(p.t + 1, n)], pushed := s.pushed + [p.val], producer := PIdle)
    case PopStart => s.(consumer := CLoaded(s.heads[|s.heads| - 1]))
    case PopLoadTail(v) =>
      s.(seenTail := v,
         consumer := if s.consumer.h == s.tails[v] then CIdle else CReady(s.consumer.h))
    case PopTake =>
      var h := s.consumer.h;
      s.(buf := s.buf[h := Moved], consumer := CTaken(h, s.buf[h]))
    case PopPublish =>
      var c := s.consumer;
      s.(heads := s.heads + [Wrap(c.h + 1, n)], popped := s.popped + [c.cell], consumer := CIdle)
  }

  // ---- The invariant --------------------------------------------------------------------------

  /** Items whose slot the consumer has already emptied. */
  ghost function Emptied<T>(s: Ring<T>): nat {
    |s.popped| + if s.consumer.CTaken? then 1 else 0
  }

  ghost predicate Counters<T>(s: Ring<T>, n: nat) {
    && Shape(s, n)
    && |s.heads| == |s.popped| + 1 && |s.tails| == |s.pushed| + 1
    && (forall i :: 0 <= i < |s.heads| ==> s.heads[i] == i % n)
    && (forall i :: 0 <= i < |s.tails| ==> s.tails[i] == i % n)
    && s.seenHead <= |s.popped| <= s.seenTail <= |s.pushed|
    && |s.pushed| - s.seenHead <= n - 1
  }

  ghost predicate ProducerOk<T>(s: Ring<T>, n: nat)
    requires Counters(s, n)
  {
    match s.producer
    case PIdle => true
    case PLoaded(_, t) => t == |s.pushed| % n
    case PRoom(_, t) => t == |s.pushed| % n && |s.pushed| + 1 - s.seenHead <= n - 1
    case PWritten(val, t) =>
      && t == |s.pushed| % n && |s.pushed| + 1 - s.seenHead <= n - 1
      && s.buf[t] == Holds(val)
  }

  ghost predicate ConsumerOk<T>(s: Ring<T>, n: nat)
    requires Counters(s, n)
  {
    match s.consumer
    case CIdle => true
    case CLoaded(h) => h == |s.popped| % n
    case CReady(h) => h == |s.popped| % n && |s.popped| < s.seenTail
    case CTaken(h, cell) =>
      h == |s.popped| % n && |s.popped| < s.seenTail && cell == Holds(s.pushed[|s.popped|])
  }

  ghost predicate SlotsOk<T>(s: Ring<T>, n: nat)
    requires Counters(s, n)
  {
    forall i :: Emptied(s) <= i < |s.pushed| ==> s.buf[i % n] == Holds(s.pushed[i])
  }

  ghost predicate Fifo<T>(s: Ring<T>) {
    |s.popped| <= |s.pushed| && forall i :: 0 <= i < |s.popped| ==> s.popped[i] == Holds(s.pushed[i])
  }

  ghost predicate Inv<T>(s: Ring<T>, n: nat) {
    Counters(s, n) && ProducerOk(s, n) && ConsumerOk(s, n) && SlotsOk(s, n) && Fifo(s)
  }

  lemma InitInv<T>(n: nat)
    requires n >= 2
    ensures Inv(Init<T>(n), n)
  {}

  /** The producer's fullness test, on whatever head it loaded, is exact for that head. */
  lemma FullTestExact<T>(s: Ring<T>, v: nat, n: nat, k: nat)
    requires RingSize(n, k) && Inv(s, n) && Enabled(s, PushLoadHead(v))
    ensures Wrap(s.producer.t + 1, n) == s.heads[v] <==> |s.pushed| - v == n - 1
  {
    hide Wrap;
    WrapNext(|s.pushed|, n, k);
    FullDistance(v, |s.pushed|, n);
  }

  lemma EmptyTestExact<T>(s: Ring<T>, v: nat, n: nat)
    requires n >= 2 && Inv(s, n) && Enabled(s, PopLoadTail(v))
    ensures s.consumer.h == s.tails[v] <==> |s.popped| == v
  {
    SlotsDistinct(|s.popped|, v, n);
  }

  lemma PushStepInv<T>(s: Ring<T>, e: Event<T>, n: nat, k: nat)
    requires RingSize(n, k) && Inv(s, n) && Enabled(s, e)
    requires e.PushStart? || e.PushLoadHead? || e.PushPublish?
    ensures Inv(Next(s, e, n), n)
  {
    WrapNext(|s.pushed|, n, k);
    if e.PushLoadHead? {
      FullTestExact(s, e.version, n, k);
    }
  }

  /** The slot about to be filled is no slot the consumer still has to read. */
  lemma WriteTargetFree<T>(s: Ring<T>, n: nat)
    requires n >= 2 && Inv(s, n) && s.producer.PRoom?
    ensures forall i :: |s.popped| <= i < |s.pushed| ==> i % n != s.producer.t
    ensures s.consumer.CReady? ==> s.consumer.h != s.producer.t
  {
    forall i | |s.popped| <= i < |s.pushed|
      ensures i % n != s.producer.t
    {
      SlotsDistinct(i, |s.pushed|, n);
    }
  }

  lemma PushWriteInv<T>(s: Ring<T>, n: nat)
    requires n >= 2 && Inv(s, n) && Enabled(s, PushWrite)
    ensures Inv(Next(s, PushWrite, n), n)
  {
    WriteTargetFree(s, n);
  }

  /** The slot about to be read holds the oldest item not yet delivered. */
  lemma ReadSourceFilled<T>(s: Ring<T>, n: nat)
    requires n >= 2 && Inv(s, n) && s.consumer.CReady?
    ensures |s.popped| < |s.pushed| && s.consumer.h < n
    ensures s.buf[s.consumer.h] == Holds(s.pushed[|s.popped|])
  {}

  lemma PopStepInv<T>(s: Ring<T>, e: Event<T>, n: nat, k: nat)
    requires RingSize(n, k) && Inv(s, n) && Enabled(s, e)
    requires e.PopStart? || e.PopLoadTail? || e.PopPublish?
    ensures Inv(Next(s, e, n), n)
  {
    WrapNext(|s.popped|, n, k);
    if e.PopLoadTail? {
      EmptyTestExact(s, e.version, n);
    }
  }

  lemma PopTakeInv<T>(s: Ring<T>, n: nat)
    requires n >= 2 && Inv(s, n) && Enabled(s, PopTake)
    ensures Inv(Next(s, PopTake, n), n)
  {
    ReadSourceFilled(s, n);
    var s' := Next(s, PopTake, n);
    forall i | Emptied(s') <= i < |s.pushed|
      ensures s'.buf[i % n] == Holds(s.pushed[i])
    {
      SlotsDistinct(|s.popped|, i, n);
    }
    if s.producer.PWritten? {
      SlotsDistinct(|s.popped|, |s.pushed|, n);
    }
  }

  lemma StepInv<T>(s: Ring<T>, e: Event<T>, n: nat, k: nat)
    requires RingSize(n, k) && Inv(s, n) && Enabled(s, e)
    ensures Inv(Next(s, e, n), n)
  {
    WrapNext(0, n, k);
    hide Inv, Next;
    match e {
      case PushWrite => PushWriteInv(s, n);
      case PopTake => PopTakeInv(s, n);
      case PushStart(_) => PushStepInv(s, e, n, k);
      case PushLoadHead(_) => PushStepInv(s, e, n, k);
      case PushPublish => PushStepInv(s, e, n, k);
      case PopStart => PopStepInv(s, e, n, k);
      case PopLoadTail(_) => PopStepInv(s, e, n, k);
      case PopPublish => PopStepInv(s, e, n, k);
    }
  }

  // ---- Whole runs -----------------------------------------------------------------------------

  ghost predicate RunOk<T>(s: Ring<T>, es: seq<Event<T>>, n: nat)
    decreases |es|
  {
    es == [] || (Shape(s, n) && Enabled(s, es[0]) && RunOk(Next(s, es[0], n), es[1..], n))
  }

  ghost function Run<T>(s: Ring<T>, es: seq<Event<T>>, n: nat): Ring<T>
    requires RunOk(s, es, n)
    decreases |es|
  {
    if es == [] then s else Run(Next(s, es[0], n), es[1..], n)
  }

  lemma {:induction false} RunInv<T>(s: Ring<T>, es: seq<Event<T>>, n: nat, k: nat)
    requires RingSize(n, k) && Inv(s, n) && RunOk(s, es, n)
    ensures Inv(Run(s, es, n), n)
    decreases |es|
  {
    hide Inv, Next;
    if es != [] {
      StepInv(s, es[0], n, k);
      RunInv(Next(s, es[0], n), es[1..], n, k);
    }
  }

  /** The queue the ring stands for: published and not yet released. */
  ghost function Queue<T>(s: Ring<T>): seq<T>
    requires |s.popped| <= |s.pushed|
  {
    s.pushed[|s.popped|..]
  }

  /**
    Every run, under every interleaving and every choice of loaded values: the items delivered are
    a prefix of the items accepted, at most `N - 1` are in flight, the two threads never touch the
    same slot at the same time, and a slot is read only when it holds the next item.
   */
  lemma {:induction false} FifoOverRuns<T>(es: seq<Event<T>>, n: nat, k: nat)
    requires RingSize(n, k) && RunOk(Init<T>(n), es, n)
    ensures var s := Run(Init<T>(n), es, n);
            && Fifo(s) && |s.pushed| - |s.popped| <= n - 1
            && (s.producer.PRoom? && s.consumer.CReady? ==> s.producer.t != s.consumer.h)
            && (s.consumer.CReady? ==>
                  s.consumer.h < |s.buf| && |s.popped| < |s.pushed| &&
                  s.buf[s.consumer.h] == Holds(s.pushed[|s.popped|]))
            && (s.producer.PRoom? ==>
                  forall i :: |s.popped| <= i < |s.pushed| ==> i % n != s.producer.t)
  {
    WrapNext(0, n, k);
    InitInv<T>(n);
    RunInv(Init<T>(n), es, n, k);
    var s := Run(Init<T>(n), es, n);
    hide Run, RunOk;
    if s.producer.PRoom? {
      WriteTargetFree(s, n);
    }
    if s.consumer.CReady? {
      ReadSourceFilled(s, n);
    }
  }

  /** Each step leaves the queue alone, appends the pushed item, or removes the oldest one. */
  lemma StepRefinesQueue<T>(s: Ring<T>, e: Event<T>, n: nat, k: nat)
    requires RingSize(n, k) && Inv(s, n) && Enabled(s, e)
    ensures var s' := Next(s, e, n);
            && |s'.popped| <= |s'.pushed|
            && match e
               case PushPublish => Queue(s') == Queue(s) + [s.producer.val]
               case PopPublish => s.consumer.cell.Holds? && Queue(s) == [s.consumer.cell.value] + Queue(s')
               case _ => Queue(s') == Queue(s)
  {
    StepInv(s, e, n, k);
  }

  /** A push that runs without interference and loads the newest head is the sequential queue operation. */
  lemma PushAlone<T>(s: Ring<T>, val: T, n: nat, k: nat)
    requires RingSize(n, k) && Inv(s, n) && s.producer.PIdle?
    ensures var tried := Next(Next(s, PushStart(val), n), PushLoadHead(|s.heads| - 1), n);
            if |Queue(s)| == n - 1 then tried.producer.PIdle? && Queue(tried) == Queue(s)
            else
              && Enabled(tried, PushWrite)
              && Queue(Next(Next(tried, PushWrite, n), PushPublish, n)) == Queue(s) + [val]
  {
    var s1 := Next(s, PushStart(val), n);
    StepInv(s, PushStart(val), n, k);
    FullTestExact(s1, |s.heads| - 1, n, k);
  }

  /** Likewise for a pop that loads the newest tail. */
  lemma PopAlone<T>(s: Ring<T>, n: nat, k: nat)
    requires RingSize(n, k) && Inv(s, n) && s.consumer.CIdle?
    ensures var tried := Next(Next(s, PopStart, n), PopLoadTail(|s.tails| - 1), n);
            if Queue(s) == [] then tried.consumer.CIdle? && Queue(tried) == []
            else
              && Enabled(tried, PopTake)
              && var taken := Next(tried, PopTake, n);
              && taken.consumer.cell == Holds(Queue(s)[0])
              && Queue(Next(taken, PopPublish, n)) == Queue(s)[1..]
  {
    var s1 := Next(s, PopStart, n);
    StepInv(s, PopStart, n, k);
    EmptyTestExact(s1, |s.tails| - 1, n);
    if Queue(s) != [] {
      var s2 := Next(s1, PopLoadTail(|s.tails| - 1), n);
      StepInv(s1, PopLoadTail(|s.tails| - 1), n, k);
      ReadSourceFilled(s2, n);
    }
  }
}
