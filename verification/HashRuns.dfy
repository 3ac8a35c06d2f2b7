/**
  Rehashing into a larger prime table, and whole runs of put and remove on the map state
  (table, size counter) from the empty map on.
 */
module HashRuns {
  import opened Options
  import opened Sets
  import opened Primes
  import opened Probing
  import opened HashTable

  // ---------------------------------------------------------------- rehash

  function Blank<K, V>(p: nat): (t: seq<Slot<K, V>>)
    ensures |t| == p
  {
    seq(p, _ => Empty)
  }

  /** The live entries of src, inserted in slot order into an empty table of length p. */
  function Rehash<K(==), V>(src: seq<Slot<K, V>>, p: nat, hashCode: K -> bv32): (t: seq<Slot<K, V>>)
    requires p > 0
    ensures |t| == p
  {
    if src == [] then Blank(p)
    else
      var last := src[|src| - 1];
      var t := Rehash(src[..|src| - 1], p, hashCode);
      if Live(last) then Insert(t, hashCode, last.key, last.value) else t
  }

  ghost predicate NoTombstones<K, V>(t: seq<Slot<K, V>>) {
    forall j :: 0 <= j < |t| && t[j].Entry? ==> Live(t[j])
  }

  lemma ContentsOfBlank<K, V>(p: nat)
    ensures Contents<K, V>(Blank(p)) == map[] && Occupied<K, V>(Blank(p)) == {}
  {}

  lemma ContentsSnoc<K, V>(t: seq<Slot<K, V>>, last: Slot<K, V>)
    requires Unique(t + [last])
    ensures Unique(t)
    ensures Live(last) ==> last.key !in Contents(t)
    ensures Contents(t + [last]) == if Live(last) then Contents(t)[last.key := last.value] else Contents(t)
  {
    var u := t + [last];
    assert forall j :: 0 <= j < |t| ==> t[j] == u[j];
    assert u[|t|] == last;
    var m := if Live(last) then Contents(t)[last.key := last.value] else Contents(t);
    forall q | q in Contents(u) ensures q in m && m[q] == Contents(u)[q] {
      var j := IndexOf(u, q);
      if j < |t| { ContentsAt(t, j); assert u[j] == t[j]; }
    }
    forall q | q in m ensures q in Contents(u) {
      if q in Contents(t) {
        var j := IndexOf(t, q);
        assert Live(u[j]);
        ContentsAt(u, j);
      } else {
        ContentsAt(u, |t|);
      }
    }
  }

  lemma InsertOccupies<K, V>(t: seq<Slot<K, V>>, hashCode: K -> bv32, k: K, v: V)
    requires |t| > 0
    ensures |Occupied(Insert(t, hashCode, k, v))| <= |Occupied(t)| + 1
  {
    var x := Target(t, hashCode, k);
    assert Occupied(Insert(t, hashCode, k, v)) == Occupied(t) + {x};
  }

  /**
    Rehashing into a prime table of more than twice the length preserves the live map exactly:
    no re-insertion wraps, so nothing is evicted, and no tombstone is carried over.
   */
  lemma {:induction false} RehashPreservesContents<K, V>(src: seq<Slot<K, V>>, p: nat, hashCode: K -> bv32)
    requires Unique(src) && Prime(p) && p > 2 && p > 2 * |src|
    ensures Inv(Rehash(src, p, hashCode), hashCode)
    ensures Contents(Rehash(src, p, hashCode)) == Contents(src)
    ensures |Occupied(Rehash(src, p, hashCode))| <= |src|
    ensures NoTombstones(Rehash(src, p, hashCode))
  {
    if src == [] {
      ContentsOfBlank<K, V>(p);
      assert Contents(src) == map[];
    } else {
      var n := |src| - 1;
      assert src == src[..n] + [src[n]];
      ContentsSnoc(src[..n], src[n]);
      RehashPreservesContents(src[..n], p, hashCode);
      var t := Rehash(src[..n], p, hashCode);
      if Live(src[n]) {
        HalfEmptyNeverWraps(t, hashCode, src[n].key);
        InsertCorrect(t, hashCode, src[n].key, src[n].value);
        InsertOccupies(t, hashCode, src[n].key, src[n].value);
      }
    }
  }

  // ---------------------------------------------------------------- states and operations

  datatype MapState<K, V> = MapState(table: seq<Slot<K, V>>, size: int)

  const INITIAL_CAPACITY := 16

  ghost predicate IsLeastPrime(n: int, p: int) {
    Prime(p) && n <= p && NoPrimeIn(n, p)
  }

  lemma LeastPrimeUpTo(n: nat, above: int)
    requires Prime(above) && n <= above
    ensures exists p :: IsLeastPrime(n, p)
    decreases above
  {
    if q :| n <= q < above && Prime(q) {
      LeastPrimeUpTo(n, q);
    } else {
      assert IsLeastPrime(n, above);
    }
  }

  lemma LeastPrimeExists(n: nat)
    ensures exists p :: IsLeastPrime(n, p)
  {
    var above := PrimeAtLeast(n);
    LeastPrimeUpTo(n, above);
  }

  ghost function LeastPrime(n: nat): (p: nat)
    ensures IsLeastPrime(n, p)
  {
    LeastPrimeExists(n);
    var p :| IsLeastPrime(n, p);
    p
  }

  /** The load limit 0.75, on integers: size / length >= 3 / 4. */
  predicate Crowded<K, V>(st: MapState<K, V>) {
    4 * st.size >= 3 * |st.table|
  }

  ghost function Resized<K, V>(st: MapState<K, V>, hashCode: K -> bv32): MapState<K, V> {
    MapState(Rehash(st.table, LeastPrime(2 * |st.table|), hashCode), |Contents(st.table)|)
  }

  /** The state in which a put probes: resized first when the load limit is reached. */
  ghost function Prepared<K, V>(st: MapState<K, V>, hashCode: K -> bv32): MapState<K, V> {
    if Crowded(st) then Resized(st, hashCode) else st
  }

  ghost function PutState<K, V>(st: MapState<K, V>, hashCode: K -> bv32, k: K, v: V): MapState<K, V>
    requires |st.table| > 0
  {
    var pre := Prepared(st, hashCode);
    MapState(Insert(pre.table, hashCode, k, v),
             if Lookup(pre.table, hashCode, k).Some? then pre.size else pre.size + 1)
  }

  ghost function RemoveState<K, V>(st: MapState<K, V>, hashCode: K -> bv32, k: K): MapState<K, V>
    requires |st.table| > 0
  {
    if Lookup(st.table, hashCode, k).Some? then MapState(Delete(st.table, hashCode, k), st.size - 1) else st
  }

  lemma DoubledPrimeLength(n: nat)
    requires n >= 1
    ensures LeastPrime(2 * n) > 2 * n || n == 1
  {
    if LeastPrime(2 * n) == 2 * n && n > 1 { EvenNotPrime(2 * n); }
  }

  /** A resize keeps the map, drops every tombstone, and leaves the table less than half occupied. */
  lemma ResizeCorrect<K, V>(st: MapState<K, V>, hashCode: K -> bv32)
    requires Inv(st.table, hashCode)
    ensures var st' := Resized(st, hashCode);
            && |st'.table| > 2 * |st.table|
            && Inv(st'.table, hashCode) && NoTombstones(st'.table)
            && Contents(st'.table) == Contents(st.table)
            && st'.size == |Contents(st'.table)|
            && 2 * |Occupied(st'.table)| < |st'.table|
  {
    DoubledPrimeLength(|st.table|);
    RehashPreservesContents(st.table, LeastPrime(2 * |st.table|), hashCode);
  }

  /** Right after a resize no put wraps: it finds its key or an empty slot and is a plain map update. */
  lemma PutAfterResizeIsMapUpdate<K, V>(st: MapState<K, V>, hashCode: K -> bv32, k: K, v: V)
    requires Inv(st.table, hashCode) && Crowded(st)
    ensures Contents(PutState(st, hashCode, k, v).table) == Contents(st.table)[k := v]
  {
    ResizeCorrect(st, hashCode);
    HalfEmptyNeverWraps(Resized(st, hashCode).table, hashCode, k);
    InsertCorrect(Resized(st, hashCode).table, hashCode, k, v);
  }

  /**
    A put enlarges the table exactly when the size is at least three quarters of the length, to the least prime
    from twice the length on; otherwise the length stays. An enlarging put loses nothing.
   */
  lemma PutResizesExactlyWhen<K, V>(st: MapState<K, V>, hashCode: K -> bv32, k: K, v: V)
    requires Inv(st.table, hashCode)
    ensures var p, p' := |st.table|, |PutState(st, hashCode, k, v).table|;
            && (p' > p <==> 4 * st.size >= 3 * p)
            && (p' <= p ==> p' == p)
            && (p' > p ==> Prime(p') && 2 * p < p' && forall q :: 2 * p <= q < p' ==> !Prime(q))
    ensures 4 * st.size >= 3 * |st.table| ==>
              && Contents(PutState(st, hashCode, k, v).table) == Contents(st.table)[k := v]
              && PutState(st, hashCode, k, v).size == |Contents(st.table)[k := v]|
  {
    if Crowded(st) {
      ResizeCorrect(st, hashCode);
      PutAfterResizeIsMapUpdate(st, hashCode, k, v);
      LookupIsContents(Resized(st, hashCode).table, hashCode, k);
    }
  }

  // ---------------------------------------------------------------- whole runs

  datatype Op<K, V> = Put(key: K, value: V) | Remove(key: K)

  ghost function Initial<K, V>(): MapState<K, V> {
    MapState(Blank(LeastPrime(INITIAL_CAPACITY)), 0)
  }

  ghost function Run<K, V>(ops: seq<Op<K, V>>, hashCode: K -> bv32): (st: MapState<K, V>)
    ensures |st.table| > 0
  {
    if ops == [] then Initial()
    else
      var st := Run(ops[..|ops| - 1], hashCode);
      match ops[|ops| - 1]
      case Put(k, v) => PutState(st, hashCode, k, v)
      case Remove(k) => RemoveState(st, hashCode, k)
  }

  /** Live entries overwritten by wrapped puts since the last resize. */
  ghost function Lost<K, V>(ops: seq<Op<K, V>>, hashCode: K -> bv32): nat {
    if ops == [] then 0
    else
      var before := ops[..|ops| - 1];
      match ops[|ops| - 1]
      case Remove(_) => Lost(before, hashCode)
      case Put(k, _) =>
        var st := Run(before, hashCode);
        (if Crowded(st) then 0 else Lost(before, hashCode))
        + (if Evicted(Prepared(st, hashCode).table, hashCode, k).Some? then 1 else 0)
  }

  lemma UpdateSize<K, V>(m: map<K, V>, k: K, v: V)
    ensures |m[k := v]| == if k in m then |m| else |m| + 1
  {}

  lemma RemoveSize<K, V>(m: map<K, V>, k: K)
    ensures |m - {k}| == if k in m then |m| - 1 else |m|
  {}

  lemma PreparedCorrect<K, V>(st: MapState<K, V>, hashCode: K -> bv32)
    requires Inv(st.table, hashCode)
    ensures Inv(Prepared(st, hashCode).table, hashCode)
    ensures Contents(Prepared(st, hashCode).table) == Contents(st.table)
    ensures Prepared(st, hashCode).size == if Crowded(st) then |Contents(st.table)| else st.size
  {
    if Crowded(st) { ResizeCorrect(st, hashCode); }
  }

  /** What one put does to the invariant, the map and the size counter. */
  lemma PutStateCorrect<K, V>(st: MapState<K, V>, hashCode: K -> bv32, k: K, v: V, lost: int)
    requires Inv(st.table, hashCode) && st.size == |Contents(st.table)| + lost
    ensures var pre := Prepared(st, hashCode);
            var st' := PutState(st, hashCode, k, v);
            var gone := Evicted(pre.table, hashCode, k);
            && Inv(st'.table, hashCode)
            && Contents(st'.table) == Without(Contents(st.table), gone)[k := v]
            && st'.size == |Contents(st'.table)| + (if Crowded(st) then 0 else lost) + (if gone.Some? then 1 else 0)
  {
    var pre := Prepared(st, hashCode);
    PreparedCorrect(st, hashCode);
    InsertCorrect(pre.table, hashCode, k, v);
    LookupIsContents(pre.table, hashCode, k);
    var gone := Evicted(pre.table, hashCode, k);
    if gone.Some? {
      EvictedIsOther(pre.table, hashCode, k);
      RemoveSize(Contents(st.table), gone.value);
    }
    UpdateSize(Without(Contents(st.table), gone), k, v);
  }

  lemma RemoveStateCorrect<K, V>(st: MapState<K, V>, hashCode: K -> bv32, k: K)
    requires Inv(st.table, hashCode)
    ensures var st' := RemoveState(st, hashCode, k);
            && Inv(st'.table, hashCode)
            && Contents(st'.table) == Contents(st.table) - {k}
            && st'.size - |Contents(st'.table)| == st.size - |Contents(st.table)|
  {
    LookupIsContents(st.table, hashCode, k);
    DeleteCorrect(st.table, hashCode, k);
    RemoveSize(Contents(st.table), k);
  }

  lemma InitialInv<K, V>(hashCode: K -> bv32)
    ensures Inv(Initial<K, V>().table, hashCode) && Contents(Initial<K, V>().table) == map[]
  {}

  /**
    In every reachable state, wrapped puts included: each live entry is on its key's probe path with no
    empty slot before it, each key is live at most once, lookups agree with the live map, and the size
    counter exceeds the live count by exactly the entries overwritten since the last resize.
   */
  lemma {:induction false} EveryReachableState<K, V>(ops: seq<Op<K, V>>, hashCode: K -> bv32)
    ensures var st := Run(ops, hashCode);
            && Inv(st.table, hashCode)
            && st.size == |Contents(st.table)| + Lost(ops, hashCode)
            && forall k :: Lookup(st.table, hashCode, k)
                           == if k in Contents(st.table) then Some(Contents(st.table)[k]) else None
  {
    var st := Run(ops, hashCode);
    if ops == [] {
      InitialInv<K, V>(hashCode);
    } else {
      var before := ops[..|ops| - 1];
      EveryReachableState(before, hashCode);
      match ops[|ops| - 1] {
        case Put(k, v) => PutStateCorrect(Run(before, hashCode), hashCode, k, v, Lost(before, hashCode));
        case Remove(k) => RemoveStateCorrect(Run(before, hashCode), hashCode, k);
      }
    }
    forall k ensures Lookup(st.table, hashCode, k)
                     == if k in Contents(st.table) then Some(Contents(st.table)[k]) else None
    {
      LookupIsContents(st.table, hashCode, k);
    }
  }

  /** The plain map the operations describe. */
  ghost function Reference<K, V>(ops: seq<Op<K, V>>): map<K, V> {
    if ops == [] then map[]
    else
      var m := Reference(ops[..|ops| - 1]);
      match ops[|ops| - 1]
      case Put(k, v) => m[k := v]
      case Remove(k) => m - {k}
  }

  /** No put of the run evicts a live entry. */
  ghost predicate NoEvictions<K, V>(ops: seq<Op<K, V>>, hashCode: K -> bv32) {
    ops == [] ||
    var before := ops[..|ops| - 1];
    && NoEvictions(before, hashCode)
    && match ops[|ops| - 1]
       case Put(k, _) => Evicted(Prepared(Run(before, hashCode), hashCode).table, hashCode, k).None?
       case Remove(_) => true
  }

  /** A run without evictions is the plain map, size counter included. */
  lemma {:induction false} RunRefinesMap<K, V>(ops: seq<Op<K, V>>, hashCode: K -> bv32)
    requires NoEvictions(ops, hashCode)
    ensures Contents(Run(ops, hashCode).table) == Reference(ops)
    ensures Run(ops, hashCode).size == |Reference(ops)|
  {
    if ops == [] {
      InitialInv<K, V>(hashCode);
    } else {
      var before := ops[..|ops| - 1];
      EveryReachableState(before, hashCode);
      RunRefinesMap(before, hashCode);
      match ops[|ops| - 1] {
        case Put(k, v) => PutStateCorrect(Run(before, hashCode), hashCode, k, v, 0);
        case Remove(k) => RemoveStateCorrect(Run(before, hashCode), hashCode, k);
      }
    }
  }

  lemma {:induction false} NoEvictionsPrefix<K, V>(ops: seq<Op<K, V>>, hashCode: K -> bv32, n: nat)
    requires NoEvictions(ops, hashCode) && n <= |ops|
    ensures NoEvictions(ops[..n], hashCode)
  {
    if n == |ops| {
      assert ops[..n] == ops;
    } else {
      NoEvictionsPrefix(ops[..|ops| - 1], hashCode, n);
      assert ops[..|ops| - 1][..n] == ops[..n];
    }
  }

  /** A put that evicts is no map update. */
  lemma EvictionShows<K, V>(st: MapState<K, V>, hashCode: K -> bv32, k: K, v: V)
    requires Inv(st.table, hashCode) && Evicted(Prepared(st, hashCode).table, hashCode, k).Some?
    ensures Contents(PutState(st, hashCode, k, v).table) != Contents(st.table)[k := v]
  {
    var pre := Prepared(st, hashCode);
    PreparedCorrect(st, hashCode);
    EvictedIsOther(pre.table, hashCode, k);
    InsertIsMapUpdateExactlyWhen(pre.table, hashCode, k, v);
  }

  ghost predicate RefinesAt<K, V>(ops: seq<Op<K, V>>, hashCode: K -> bv32, n: nat)
    requires n <= |ops|
  {
    Contents(Run(ops[..n], hashCode).table) == Reference(ops[..n])
  }

  lemma {:induction false} RefiningEvictsNothing<K, V>(ops: seq<Op<K, V>>, hashCode: K -> bv32)
    requires forall n: nat :: n <= |ops| ==> RefinesAt(ops, hashCode, n)
    ensures NoEvictions(ops, hashCode)
  {
    if ops != [] {
      var m := |ops| - 1;
      var before := ops[..m];
      forall n: nat | n <= m ensures RefinesAt(before, hashCode, n) {
        assert RefinesAt(ops, hashCode, n) && before[..n] == ops[..n];
      }
      RefiningEvictsNothing(before, hashCode);
      EveryReachableState(before, hashCode);
      assert RefinesAt(ops, hashCode, m) && RefinesAt(ops, hashCode, m + 1) && ops[..m + 1] == ops;
      if ops[m].Put? && Evicted(Prepared(Run(before, hashCode), hashCode).table, hashCode, ops[m].key).Some? {
        EvictionShows(Run(before, hashCode), hashCode, ops[m].key, ops[m].value);
      }
    }
  }

  /** A run is the plain map after every operation exactly when no put of it evicts. */
  lemma RunRefinesMapExactlyWhen<K, V>(ops: seq<Op<K, V>>, hashCode: K -> bv32)
    ensures NoEvictions(ops, hashCode) <==> forall n: nat :: n <= |ops| ==> RefinesAt(ops, hashCode, n)
  {
    if NoEvictions(ops, hashCode) {
      forall n: nat | n <= |ops| ensures RefinesAt(ops, hashCode, n) {
        NoEvictionsPrefix(ops, hashCode, n);
        RunRefinesMap(ops[..n], hashCode);
      }
    }
    if forall n: nat :: n <= |ops| ==> RefinesAt(ops, hashCode, n) {
      RefiningEvictsNothing(ops, hashCode);
    }
  }

  lemma LiveAreOccupied<K, V>(t: seq<Slot<K, V>>)
    ensures |Contents(t)| <= |Occupied(t)|
  {
    var indices := set k | k in LiveKeys(t) :: IndexOf(t, k);
    assert indices <= Occupied(t);
    SubsetSize(indices, Occupied(t));
    InjectiveSize(LiveKeys(t), indices, k requires k in LiveKeys(t) => IndexOf(t, k));
    assert Contents(t).Keys == LiveKeys(t);
  }

  /** In every reachable state the load is below three quarters of the length plus one entry. */
  lemma {:induction false} LoadStaysBounded<K, V>(ops: seq<Op<K, V>>, hashCode: K -> bv32)
    ensures 4 * (Run(ops, hashCode).size - 1) < 3 * |Run(ops, hashCode).table|
  {
    if ops != [] {
      var before := ops[..|ops| - 1];
      LoadStaysBounded(before, hashCode);
      EveryReachableState(before, hashCode);
      var st := Run(before, hashCode);
      if ops[|ops| - 1].Put? && Crowded(st) {
        ResizeCorrect(st, hashCode);
        LiveAreOccupied(Resized(st, hashCode).table);
      }
    }
  }
}
