/** The ring buffer as one thread sees it: a bounded first-in first-out queue. */
module RingBuffer {
  import opened Masks
  import opened RingIndex

  class SPSCRingBuffer<T(0)> {
    const n: nat
    ghost const k: nat
    const buf: array<T>
    var head: nat
    var tail: nat

    ghost predicate Valid()
      reads this, buf
    {
      RingSize(n, k) && n >= 2 && buf.Length == n && head < n && tail < n
    }

    /** The items queued, oldest first. */
    ghost function Contents(): (s: seq<T>)
      reads this, buf
      requires Valid()
      ensures |s| == if head <= tail then tail - head else tail - head + n
    {
      if head <= tail then buf[head..tail] else buf[head..] + buf[..tail]
    }

    constructor (slots: nat, ghost bits: nat)
      requires RingSize(slots, bits)
      ensures Valid() && n == slots && k == bits && Contents() == [] && fresh(buf)
    {
      WrapIsMod(0, slots, bits);
      n, k := slots, bits;
      buf := new T[slots];
      head, tail := 0, 0;
    }

    /** Refused exactly when `N - 1` items are queued. */
    method Push(val: T) returns (ok: bool)
      requires Valid()
      modifies this`tail, buf
      ensures Valid()
      ensures ok <==> |old(Contents())| < n - 1 == Capacity()
      ensures Contents() == if ok then old(Contents()) + [val] else old(Contents())
    {
      hide And, Wrap, RingSize;
      var t := tail;
      NextIndex(t, n, k);
      var next := Wrap(t + 1, n);
      if next == head {
        return false;
      }
      ghost var before := Contents();
      buf[t] := val;
      tail := next;
      PushSlices(old(buf[..]), buf[..], head, t, val);
      return true;
    }

    /** Refused exactly when nothing is queued. */
    method Pop() returns (ok: bool, out: T)
      requires Valid()
      modifies this`head
      ensures Valid()
      ensures ok <==> old(Contents()) != []
      ensures ok ==> [out] + Contents() == old(Contents())
      ensures !ok ==> Contents() == old(Contents())
    {
      hide And, Wrap, RingSize;
      var h := head;
      out := buf[h];
      if h == tail {
        return false, out;
      }
      ghost var before := Contents();
      NextIndex(h, n, k);
      head := Wrap(h + 1, n);
      PopSlices(buf[..], h, tail);
      return true, out;
    }

    method Empty() returns (r: bool)
      requires Valid()
      ensures r <==> Contents() == []
    {
      r := head == tail;
    }

    method SizeApprox() returns (r: nat)
      requires Valid()
      ensures r == |Contents()|
    {
      SizeIsDistance(head, tail, n, k);
      r := SizeFormula(head, tail, n);
    }

    function Capacity(): (r: nat)
      reads this, buf
      requires Valid()
      ensures |Contents()| <= r < n
    {
      n - 1
    }
  }

  lemma PushSlices<T>(before: seq<T>, after: seq<T>, head: nat, t: nat, val: T)
    requires head < |before| && t < |before| && after == before[t := val]
    requires t + 1 != head && !(t + 1 == |before| && head == 0)
    ensures head <= t && t + 1 < |before| ==> after[head..t + 1] == before[head..t] + [val]
    ensures head <= t && t + 1 == |before| ==> after[head..] + after[..0] == before[head..t] + [val]
    ensures t < head ==> after[head..] + after[..t + 1] == before[head..] + before[..t] + [val]
  {}

  lemma PopSlices<T>(items: seq<T>, h: nat, t: nat)
    requires h < |items| && t < |items| && h != t
    ensures h < t ==> [items[h]] + items[h + 1..t] == items[h..t]
    ensures h > t && h + 1 < |items| ==> [items[h]] + (items[h + 1..] + items[..t]) == items[h..] + items[..t]
    ensures h > t && h + 1 == |items| ==> [items[h]] + items[0..t] == items[h..] + items[..t]
  {}
}
