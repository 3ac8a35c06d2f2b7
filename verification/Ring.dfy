/**
  The circular queue both bounded buffers use: a fixed array of slots with head, tail and size.
 */
module Rings {

  datatype Ring<T> = Ring(slots: seq<T>, head: nat, tail: nat, size: nat)
  {
    function Capacity(): nat { |slots| }

    ghost predicate Valid() {
      && 0 < |slots| && head < |slots| && size <= |slots|
      && tail == (head + size) % |slots|
    }

    /** The queued values, oldest first. */
    ghost function Items(): (s: seq<T>)
      requires Valid()
      ensures |s| == size
    {
      seq(size, i requires 0 <= i < size => slots[(head + i) % |slots|])
    }

    function Push(x: T): Ring<T>
      requires tail < |slots|
    {
      Ring(slots[tail := x], head, (tail + 1) % |slots|, size + 1)
    }

    function First(): T
      requires head < |slots|
    {
      slots[head]
    }

    function Pop(): Ring<T>
      requires head < |slots| && size > 0
    {
      Ring(slots, (head + 1) % |slots|, tail, size - 1)
    }
  }

  lemma WrapOnce(a: nat, c: nat)
    requires 0 < c && a < 2 * c
    ensures a % c == if a < c then a else a - c
  {}

  /** Adding to a ring that is not full appends to its items and overwrites none of them. */
  lemma PushAppends<T>(r: Ring<T>, x: T)
    requires r.Valid() && r.size < r.Capacity()
    ensures r.Push(x).Valid() && r.Push(x).Items() == r.Items() + [x]
  {
    var c := |r.slots|;
    var r' := r.Push(x);
    WrapOnce(r.head + r.size, c);
    WrapOnce(r.tail + 1, c);
    WrapOnce(r.head + r.size + 1, c);
    forall i | 0 <= i < r.size ensures r'.Items()[i] == r.Items()[i] {
      WrapOnce(r.head + i, c);
    }
  }

  /** Taking from a ring that is not empty yields its oldest item and keeps the rest in order. */
  lemma PopTakesOldest<T>(r: Ring<T>)
    requires r.Valid() && r.size > 0
    ensures r.Pop().Valid() && r.Items() == [r.First()] + r.Pop().Items()
  {
    var c := |r.slots|;
    WrapOnce(r.head, c);
    WrapOnce(r.head + 1, c);
    WrapOnce(r.head + r.size, c);
    if r.head + 1 == c { WrapOnce(r.size - 1, c); } else { WrapOnce(r.head + 1 + (r.size - 1), c); }
    forall i | 1 <= i < r.size ensures r.Items()[i] == r.Pop().Items()[i - 1] {
      WrapOnce(r.head + i, c);
      WrapOnce((r.head + 1) % c + (i - 1), c);
    }
  }
}
