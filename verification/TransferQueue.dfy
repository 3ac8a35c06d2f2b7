/**
  The transfer queue's arrays: the two lock sections that insert and remove a request, on the fields
  themselves, proved equal to the ring operations of the protocol. A slot is marked active exactly while
  its request is queued.
 */
module TransferQueue {
  import opened Rings

  /** Slot i lies among the size slots that start at head, going round. */
  predicate Within(i: nat, head: nat, size: nat, capacity: nat) {
    if head + size <= capacity then head <= i < head + size else head <= i < capacity || i < head + size - capacity
  }

  /** The active marks are exactly the queued slots. */
  ghost predicate Marked(active: seq<bool>, head: nat, size: nat) {
    forall i :: 0 <= i < |active| ==> (active[i] <==> Within(i, head, size, |active|))
  }

  lemma MarkPushAt(active: seq<bool>, head: nat, tail: nat, size: nat)
    requires Marked(active, head, size) && head < |active| && size < |active|
    requires tail == if head + size < |active| then head + size else head + size - |active|
    ensures Marked(active[tail := true], head, size + 1)
  {}

  lemma MarkPush(active: seq<bool>, head: nat, size: nat)
    requires Marked(active, head, size) && head < |active| && size < |active|
    ensures Marked(active[(head + size) % |active| := true], head, size + 1)
  {
    WrapOnce(head + size, |active|);
    MarkPushAt(active, head, (head + size) % |active|, size);
  }

  lemma MarkPopTo(active: seq<bool>, head: nat, next: nat, size: nat)
    requires Marked(active, head, size) && head < |active| && 0 < size <= |active|
    requires next == if head + 1 < |active| then head + 1 else 0
    ensures Marked(active[head := false], next, size - 1)
  {}

  lemma MarkPop(active: seq<bool>, head: nat, size: nat)
    requires Marked(active, head, size) && head < |active| && 0 < size <= |active|
    ensures Marked(active[head := false], (head + 1) % |active|, size - 1)
  {
    WrapOnce(head + 1, |active|);
    MarkPopTo(active, head, (head + 1) % |active|, size);
  }

  class FileTransferQueue<T(0)> {
    const requests: array<T>
    const active: array<bool>
    var queueSize: nat
    var queueHead: nat
    var queueTail: nat

    ghost function AsRing(): Ring<T>
      reads this, requests
    {
      Ring(requests[..], queueHead, queueTail, queueSize)
    }

    ghost predicate Valid()
      reads this, requests, active
    {
      && AsRing().Valid() && active.Length == requests.Length && (active as object) != requests
      && Marked(active[..], queueHead, queueSize)
    }

    constructor (capacity: nat)
      requires capacity > 0
      ensures Valid() && fresh(requests) && fresh(active)
      ensures AsRing().Capacity() == capacity && AsRing().Items() == []
    {
      requests := new T[capacity];
      active := new bool[capacity](_ => false);
      queueSize, queueHead, queueTail := 0, 0, 0;
    }

    method Insert(request: T) returns (position: nat)
      requires Valid() && queueSize < requests.Length
      modifies this, requests, active
      ensures Valid() && AsRing() == old(AsRing()).Push(request)
      ensures AsRing().Items() == old(AsRing().Items()) + [request] && position == |AsRing().Items()|
    {
      PushAppends(AsRing(), request);
      MarkPush(active[..], queueHead, queueSize);
      requests[queueTail] := request;
      active[queueTail] := true;
      queueTail := (queueTail + 1) % requests.Length;
      queueSize := queueSize + 1;
      return queueSize;
    }

    method Remove() returns (request: T)
      requires Valid() && queueSize > 0
      modifies this, active
      ensures Valid() && AsRing() == old(AsRing()).Pop()
      ensures old(AsRing().Items()) == [request] + AsRing().Items()
    {
      PopTakesOldest(AsRing());
      MarkPop(active[..], queueHead, queueSize);
      request := requests[queueHead];
      active[queueHead] := false;
      queueHead := (queueHead + 1) % requests.Length;
      queueSize := queueSize - 1;
    }
  }
}
