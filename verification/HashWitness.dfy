/**
  How long a run is safe. Nine puts on a new map never lose an entry, whatever the keys; ten can.
 */
module HashWitness {
  import opened Options
  import opened Primes
  import opened Probing
  import opened HashTable
  import opened HashRuns

  lemma SeventeenIsInitialLength()
    ensures LeastPrime(INITIAL_CAPACITY) == 17
  {
    assert !Divides(2, 17) && !Divides(3, 17) && !Divides(4, 17) && !Divides(5, 17) && !Divides(6, 17);
    assert !Divides(7, 17) && !Divides(8, 17) && !Divides(9, 17) && !Divides(10, 17) && !Divides(11, 17);
    assert !Divides(12, 17) && !Divides(13, 17) && !Divides(14, 17) && !Divides(15, 17) && !Divides(16, 17);
    assert Prime(17);
    EvenNotPrime(16);
  }

  ghost function PutCount<K, V>(ops: seq<Op<K, V>>): nat {
    if ops == [] then 0
    else PutCount(ops[..|ops| - 1]) + (if ops[|ops| - 1].Put? then 1 else 0)
  }

  lemma DeleteOccupies<K, V>(t: seq<Slot<K, V>>, hashCode: K -> bv32, k: K)
    requires |t| > 0
    ensures Occupied(Delete(t, hashCode, k)) == Occupied(t)
  {}

  /** Any run with at most nine puts behaves as the plain map. */
  lemma {:induction false} NinePutsAreSafe<K, V>(ops: seq<Op<K, V>>, hashCode: K -> bv32)
    requires PutCount(ops) <= 9
    ensures NoEvictions(ops, hashCode)
    ensures |Run(ops, hashCode).table| == 17
    ensures |Occupied(Run(ops, hashCode).table)| <= PutCount(ops) && Run(ops, hashCode).size <= PutCount(ops)
    ensures Contents(Run(ops, hashCode).table) == Reference(ops)
  {
    SeventeenIsInitialLength();
    if ops == [] {
      ContentsOfBlank<K, V>(17);
    } else {
      var before := ops[..|ops| - 1];
      NinePutsAreSafe(before, hashCode);
      EveryReachableState(before, hashCode);
      var t := Run(before, hashCode).table;
      match ops[|ops| - 1] {
        case Put(k, v) =>
          HalfEmptyNeverWraps(t, hashCode, k);
          InsertOccupies(t, hashCode, k, v);
        case Remove(k) =>
          DeleteOccupies(t, hashCode, k);
      }
    }
    RunRefinesMap(ops, hashCode);
  }

  // ---------------------------------------------------------------- ten puts that lose an entry

  /** The nine slots a probe from slot 0 of the first table can reach, in probe order. */
  function ReachedSlot(i: nat): (k: nat)
    requires i < 9
    ensures k < 17
    ensures k == Probe(0, i, 17)
  {
    if i == 0 then 0 else if i == 1 then 1 else if i == 2 then 4 else if i == 3 then 9 else if i == 4 then 16
    else if i == 5 then 8 else if i == 6 then 2 else if i == 7 then 15 else 13
  }

  /** Hash codes of the ten keys used below: each key is its own code. */
  function SameCode(k: nat): bv32 {
    if k == 0 then 0 else if k == 1 then 1 else if k == 2 then 2 else if k == 4 then 4 else if k == 8 then 8
    else if k == 9 then 9 else if k == 13 then 13 else if k == 15 then 15 else if k == 16 then 16 else 17
  }

  lemma HomeOfReached(i: nat)
    requires i < 9
    ensures Home(SameCode, ReachedSlot(i), 17) == ReachedSlot(i)
  {}

  lemma HomeOfSeventeen()
    ensures Home(SameCode, 17, 17) == 0
  {}

  function Fill(n: nat): (ops: seq<Op<nat, nat>>)
    requires n <= 9
    ensures |ops| == n
  {
    if n == 0 then [] else Fill(n - 1) + [Put(ReachedSlot(n - 1), n - 1)]
  }

  ghost predicate FilledUpTo(t: seq<Slot<nat, nat>>, n: nat)
    requires n <= 9
  {
    && |t| == 17
    && (forall i: nat :: i < n ==> t[ReachedSlot(i)] == Entry(ReachedSlot(i), i, false))
    && (forall i: nat :: n <= i < 9 ==> t[ReachedSlot(i)] == Empty)
  }

  lemma InsertAtEmptyHome(t: seq<Slot<nat, nat>>, n: nat)
    requires n < 9 && FilledUpTo(t, n)
    ensures Lookup(t, SameCode, ReachedSlot(n)).None?
    ensures FilledUpTo(Insert(t, SameCode, ReachedSlot(n), n), n + 1)
  {
    var k := ReachedSlot(n);
    HomeOfReached(n);
    assert Probe(k, 0, 17) == k;
    assert Tries(t, SameCode, k) == 0;
    SeventeenIsInitialLength();
    forall i: nat | i < 9 && i != n ensures ReachedSlot(i) != k {
      if i < n { ProbesDistinct(0, i, n, 17); } else { ProbesDistinct(0, n, i, 17); }
    }
  }

  lemma FillStep(st: MapState<nat, nat>, n: nat)
    requires n < 9 && FilledUpTo(st.table, n) && st.size == n
    ensures var st' := PutState(st, SameCode, ReachedSlot(n), n);
            FilledUpTo(st'.table, n + 1) && st'.size == n + 1
  {
    InsertAtEmptyHome(st.table, n);
  }

  lemma RunOfFill(n: nat)
    requires n < 9
    ensures PutCount(Fill(n + 1)) == PutCount(Fill(n)) + 1
    ensures Run(Fill(n + 1), SameCode) == PutState(Run(Fill(n), SameCode), SameCode, ReachedSlot(n), n)
  {
    assert Fill(n + 1)[..n] == Fill(n);
  }

  /** The first nine puts each land in their own home slot. */
  lemma {:induction false} FilledTable(n: nat)
    requires n <= 9
    ensures PutCount(Fill(n)) == n
    ensures FilledUpTo(Run(Fill(n), SameCode).table, n) && Run(Fill(n), SameCode).size == n
  {
    if n == 0 {
      SeventeenIsInitialLength();
    } else {
      FilledTable(n - 1);
      RunOfFill(n - 1);
      FillStep(Run(Fill(n - 1), SameCode), n - 1);
    }
  }

  /** Key 17 finds all nine slots it can reach taken by other keys. */
  lemma TenthProbeWraps(t: seq<Slot<nat, nat>>)
    requires FilledUpTo(t, 9)
    ensures Evicted(t, SameCode, 17) == Some(0)
  {
    HomeOfSeventeen();
    SeventeenIsInitialLength();
    forall j | j in Reached(0, 9, 17) ensures !Stops(t[j], 17) {
      var i: nat :| i < 9 && j == Probe(0, i, 17);
      assert t[ReachedSlot(i)] == Entry(ReachedSlot(i), i, false);
    }
    WrapsExactlyWhen(t, SameCode, 17);
    assert t[ReachedSlot(0)] == Entry(0, 0, false);
  }

  /** The tenth put, of key 17, wraps and overwrites key 0. */
  lemma TenPutsLoseAnEntry()
    ensures PutCount(Fill(9)) == 9
    ensures var st := Run(Fill(9), SameCode);
            var st' := PutState(st, SameCode, 17, 0);
            && !Crowded(st)
            && 0 in Contents(st.table) && 0 !in Contents(st'.table)
            && st'.size == |Contents(st'.table)| + 1
  {
    var ops := Fill(9);
    var st := Run(ops, SameCode);
    FilledTable(9);
    TenthProbeWraps(st.table);
    EveryReachableState(ops, SameCode);
    NinePutsAreSafe(ops, SameCode);
    RunRefinesMap(ops, SameCode);
    EvictedIsOther(st.table, SameCode, 17);
    PutStateCorrect(st, SameCode, 17, 0, 0);
  }
}
