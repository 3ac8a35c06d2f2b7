/**
  The hash map as a function on tables: probing, insertion and removal by tombstone. Every operation keeps
  the invariant, including an insertion whose probe wraps around and overwrites its home slot.
 */
module HashTable {
  import opened Options
  import opened Sets
  import opened Primes
  import opened Probing

  datatype Slot<K, V> = Empty | Entry(key: K, value: V, isDeleted: bool)

  predicate Live<K, V>(slot: Slot<K, V>) {
    slot.Entry? && !slot.isDeleted
  }

  predicate LiveKey<K(==), V>(slot: Slot<K, V>, k: K) {
    Live(slot) && slot.key == k
  }

  /** What ends a probe for k: an empty slot, or the live entry of k. Tombstones do not. */
  predicate Stops<K(==), V>(slot: Slot<K, V>, k: K) {
    slot.Empty? || LiveKey(slot, k)
  }

  /** The home slot: the hash code folded by its upper half, made non-negative, modulo the length. */
  function Home<K>(hashCode: K -> bv32, k: K, p: nat): (s: nat)
    requires p > 0
    ensures s < p
  {
    var h := hashCode(k);
    ((h ^ (h >> 16)) & 0x7FFF_FFFF) as int % p
  }

  /** The lower half of the code is xored with the upper half; the upper half stays, without the sign bit. */
  lemma HomeOfCodes<K>(hashCode: K -> bv32, k: K, p: nat)
    requires p > 0
    ensures hashCode(k) == 0x0000_0005 ==> Home(hashCode, k, p) == 5 % p
    ensures hashCode(k) == 0x0002_0005 ==> Home(hashCode, k, p) == 0x0002_0007 % p
    ensures hashCode(k) == 0x8001_0003 ==> Home(hashCode, k, p) == 0x0001_8002 % p
    ensures hashCode(k) == 0xFFFF_FFFF ==> Home(hashCode, k, p) == 0x7FFF_0000 % p
  {}

  /** The first try at or after i on which a probe from s stops, or the table length if none does. */
  function Find<K(==), V>(t: seq<Slot<K, V>>, s: nat, k: K, i: nat): (r: nat)
    requires |t| > 0 && i <= |t|
    ensures i <= r <= |t|
    ensures forall j :: i <= j < r ==> !Stops(t[Probe(s, j, |t|)], k)
    ensures r < |t| ==> Stops(t[Probe(s, r, |t|)], k)
    decreases |t| - i
  {
    if i == |t| || Stops(t[Probe(s, i, |t|)], k) then i else Find(t, s, k, i + 1)
  }

  function Tries<K(==), V>(t: seq<Slot<K, V>>, hashCode: K -> bv32, k: K): (r: nat)
    requires |t| > 0
    ensures r <= |t|
  {
    Find(t, Home(hashCode, k, |t|), k, 0)
  }

  /** The slot in which the probe for k ends; a probe that never stops ends back at home. */
  function Target<K(==), V>(t: seq<Slot<K, V>>, hashCode: K -> bv32, k: K): (j: nat)
    requires |t| > 0
    ensures j < |t|
  {
    Probe(Home(hashCode, k, |t|), Tries(t, hashCode, k), |t|)
  }

  function Lookup<K(==), V>(t: seq<Slot<K, V>>, hashCode: K -> bv32, k: K): Option<V>
    requires |t| > 0
  {
    var slot := t[Target(t, hashCode, k)];
    if Tries(t, hashCode, k) < |t| && slot.Entry? then Some(slot.value) else None
  }

  function Insert<K(==), V>(t: seq<Slot<K, V>>, hashCode: K -> bv32, k: K, v: V): (t': seq<Slot<K, V>>)
    requires |t| > 0
    ensures |t'| == |t|
  {
    t[Target(t, hashCode, k) := Entry(k, v, false)]
  }

  function Delete<K(==), V>(t: seq<Slot<K, V>>, hashCode: K -> bv32, k: K): (t': seq<Slot<K, V>>)
    requires |t| > 0
    ensures |t'| == |t|
  {
    var j := Target(t, hashCode, k);
    if Lookup(t, hashCode, k).Some? then t[j := t[j].(isDeleted := true)] else t
  }

  // ---------------------------------------------------------------- invariant and abstract map

  ghost predicate Unique<K, V>(t: seq<Slot<K, V>>) {
    forall i, j :: 0 <= i < |t| && 0 <= j < |t| && Live(t[i]) && Live(t[j]) && t[i].key == t[j].key ==> i == j
  }

  /** Slot j is on the probe path of its key, with no empty slot before it. */
  ghost predicate OnPath<K, V>(t: seq<Slot<K, V>>, hashCode: K -> bv32, j: nat)
    requires j < |t| && t[j].Entry?
  {
    exists i: nat :: i < |t| && Probe(Home(hashCode, t[j].key, |t|), i, |t|) == j
      && forall l: nat :: l < i ==> t[Probe(Home(hashCode, t[j].key, |t|), l, |t|)].Entry?
  }

  ghost predicate Inv<K, V>(t: seq<Slot<K, V>>, hashCode: K -> bv32) {
    && Prime(|t|) && |t| > 2
    && Unique(t)
    && forall j {:trigger OnPath(t, hashCode, j)} :: 0 <= j < |t| && Live(t[j]) ==> OnPath(t, hashCode, j)
  }

  ghost function LiveKeys<K, V>(t: seq<Slot<K, V>>): set<K> {
    set j | 0 <= j < |t| && Live(t[j]) :: t[j].key
  }

  ghost function IndexOf<K, V>(t: seq<Slot<K, V>>, k: K): (j: nat)
    requires k in LiveKeys(t)
    ensures j < |t| && LiveKey(t[j], k)
  {
    var j: nat :| j < |t| && LiveKey(t[j], k);
    j
  }

  /** The abstract map: the live entries. */
  ghost function Contents<K, V>(t: seq<Slot<K, V>>): map<K, V> {
    map k | k in LiveKeys(t) :: t[IndexOf(t, k)].value
  }

  lemma ContentsAt<K, V>(t: seq<Slot<K, V>>, j: nat)
    requires Unique(t) && j < |t| && Live(t[j])
    ensures t[j].key in Contents(t) && Contents(t)[t[j].key] == t[j].value
  {}

  /** With every live entry on its path, the probe for a live key ends at that key's entry. */
  lemma ProbeFindsLiveEntry<K, V>(t: seq<Slot<K, V>>, hashCode: K -> bv32, j: nat)
    requires Inv(t, hashCode) && j < |t| && Live(t[j])
    ensures Tries(t, hashCode, t[j].key) < |t| && Target(t, hashCode, t[j].key) == j
  {
    assert OnPath(t, hashCode, j);
    var s := Home(hashCode, t[j].key, |t|);
    var i: nat :| i < |t| && Probe(s, i, |t|) == j && forall l: nat :: l < i ==> t[Probe(s, l, |t|)].Entry?;
    var r := Tries(t, hashCode, t[j].key);
    assert r <= i;
    assert Stops(t[Probe(s, r, |t|)], t[j].key);
    if r < i { assert t[Probe(s, r, |t|)].Entry?; }
  }

  /** A lookup, which walks the probe path, answers exactly as the abstract map does. */
  lemma LookupIsContents<K, V>(t: seq<Slot<K, V>>, hashCode: K -> bv32, k: K)
    requires Inv(t, hashCode)
    ensures Lookup(t, hashCode, k) == if k in Contents(t) then Some(Contents(t)[k]) else None
  {
    if k in Contents(t) {
      var j := IndexOf(t, k);
      ProbeFindsLiveEntry(t, hashCode, j);
    } else if Tries(t, hashCode, k) < |t| {
      var j := Target(t, hashCode, k);
      if LiveKey(t[j], k) { ContentsAt(t, j); }
    }
  }

  // ---------------------------------------------------------------- insertion

  /** The key of the live entry an insertion of k would overwrite: its home entry, when the probe wraps. */
  ghost function Evicted<K, V>(t: seq<Slot<K, V>>, hashCode: K -> bv32, k: K): Option<K>
    requires |t| > 0
  {
    var home := t[Home(hashCode, k, |t|)];
    if Tries(t, hashCode, k) == |t| && Live(home) then Some(home.key) else None
  }

  ghost function Without<K, V>(m: map<K, V>, gone: Option<K>): map<K, V> {
    match gone
    case None => m
    case Some(k) => m - {k}
  }

  lemma TargetHoldsNoOtherCopy<K, V>(t: seq<Slot<K, V>>, hashCode: K -> bv32, k: K, j: nat)
    requires Inv(t, hashCode) && j < |t| && LiveKey(t[j], k)
    ensures j == Target(t, hashCode, k)
  {
    ProbeFindsLiveEntry(t, hashCode, j);
  }

  lemma InsertKeepsUnique<K, V>(t: seq<Slot<K, V>>, hashCode: K -> bv32, k: K, v: V)
    requires Inv(t, hashCode)
    ensures Unique(Insert(t, hashCode, k, v))
  {
    var t' := Insert(t, hashCode, k, v);
    var x := Target(t, hashCode, k);
    forall i, j | 0 <= i < |t| && 0 <= j < |t| && Live(t'[i]) && Live(t'[j]) && t'[i].key == t'[j].key
      ensures i == j
    {
      if i != x && t[i].key == k { TargetHoldsNoOtherCopy(t, hashCode, k, i); }
      if j != x && t[j].key == k { TargetHoldsNoOtherCopy(t, hashCode, k, j); }
    }
  }

  lemma OnPathBy<K, V>(t: seq<Slot<K, V>>, hashCode: K -> bv32, j: nat, i: nat)
    requires j < |t| && t[j].Entry? && i < |t| && Probe(Home(hashCode, t[j].key, |t|), i, |t|) == j
    requires forall l: nat :: l < i ==> t[Probe(Home(hashCode, t[j].key, |t|), l, |t|)].Entry?
    ensures OnPath(t, hashCode, j)
  {}

  /** Writing where the probe for k ends puts the new entry on its own path. */
  lemma InsertedIsOnPath<K, V>(t: seq<Slot<K, V>>, hashCode: K -> bv32, k: K, v: V)
    requires Prime(|t|) && |t| > 2
    ensures OnPath(Insert(t, hashCode, k, v), hashCode, Target(t, hashCode, k))
  {
    var s := Home(hashCode, k, |t|);
    ProbeReturnsHome(s, |t|);
    var r := if Tries(t, hashCode, k) < |t| then Tries(t, hashCode, k) else 0;
    assert forall l: nat :: l < r ==> t[Probe(s, l, |t|)].Entry?;
    OnPathBy(Insert(t, hashCode, k, v), hashCode, Target(t, hashCode, k), r);
  }

  /** It breaks no other path. */
  lemma InsertKeepsPaths<K, V>(t: seq<Slot<K, V>>, hashCode: K -> bv32, k: K, v: V, j: nat)
    requires Inv(t, hashCode) && j < |t| && Live(t[j])
    ensures OnPath(Insert(t, hashCode, k, v), hashCode, j)
  {
    if j == Target(t, hashCode, k) {
      InsertedIsOnPath(t, hashCode, k, v);
    } else {
      assert OnPath(t, hashCode, j);
      var s := Home(hashCode, t[j].key, |t|);
      var i: nat :| i < |t| && Probe(s, i, |t|) == j && forall l: nat :: l < i ==> t[Probe(s, l, |t|)].Entry?;
      OnPathBy(Insert(t, hashCode, k, v), hashCode, j, i);
    }
  }

  lemma InsertContents<K, V>(t: seq<Slot<K, V>>, hashCode: K -> bv32, k: K, v: V)
    requires Inv(t, hashCode)
    ensures Contents(Insert(t, hashCode, k, v)) == Without(Contents(t), Evicted(t, hashCode, k))[k := v]
  {
    var t' := Insert(t, hashCode, k, v);
    var x := Target(t, hashCode, k);
    var m := Without(Contents(t), Evicted(t, hashCode, k))[k := v];
    InsertKeepsUnique(t, hashCode, k, v);
    ProbeReturnsHome(Home(hashCode, k, |t|), |t|);
    ContentsAt(t', x);
    forall q | q in Contents(t') ensures q in m && m[q] == Contents(t')[q] {
      var j := IndexOf(t', q);
      if j != x {
        ContentsAt(t, j);
        ContentsAt(t', j);
      }
    }
    forall q | q in m ensures q in Contents(t') {
      if q != k {
        var j := IndexOf(t, q);
        if j == x { KeyAtTarget(t, hashCode, k); }
        ContentsAt(t', j);
      }
    }
  }

  /**
    Insertion keeps the invariant whether or not the probe wraps, and changes the abstract map at k
    and, when a wrapped probe finds its home slot live, at the key living there; nowhere else.
   */
  lemma InsertCorrect<K, V>(t: seq<Slot<K, V>>, hashCode: K -> bv32, k: K, v: V)
    requires Inv(t, hashCode)
    ensures Inv(Insert(t, hashCode, k, v), hashCode)
    ensures Contents(Insert(t, hashCode, k, v)) == Without(Contents(t), Evicted(t, hashCode, k))[k := v]
  {
    var t' := Insert(t, hashCode, k, v);
    InsertKeepsUnique(t, hashCode, k, v);
    InsertedIsOnPath(t, hashCode, k, v);
    forall j | 0 <= j < |t'| && Live(t'[j]) ensures OnPath(t', hashCode, j) {
      if j != Target(t, hashCode, k) { InsertKeepsPaths(t, hashCode, k, v, j); }
    }
    InsertContents(t, hashCode, k, v);
  }

  /** The live entry at the end of a probe is the key itself or the evicted one. */
  lemma KeyAtTarget<K, V>(t: seq<Slot<K, V>>, hashCode: K -> bv32, k: K)
    requires Inv(t, hashCode) && Live(t[Target(t, hashCode, k)])
    ensures t[Target(t, hashCode, k)].key == k || Evicted(t, hashCode, k) == Some(t[Target(t, hashCode, k)].key)
  {
    ProbeReturnsHome(Home(hashCode, k, |t|), |t|);
  }

  /** An evicted key is never the inserted one. */
  lemma EvictedIsOther<K, V>(t: seq<Slot<K, V>>, hashCode: K -> bv32, k: K)
    requires Inv(t, hashCode) && Evicted(t, hashCode, k).Some?
    ensures Evicted(t, hashCode, k).value != k && Evicted(t, hashCode, k).value in Contents(t)
    ensures k !in Contents(t)
  {
    var s := Home(hashCode, k, |t|);
    ProbeReturnsHome(s, |t|);
    assert !Stops(t[Probe(s, 0, |t|)], k);
    ContentsAt(t, s);
    LookupIsContents(t, hashCode, k);
  }

  /** Insertion behaves as a map update exactly when no wrapped probe lands on a live home slot. */
  lemma InsertIsMapUpdateExactlyWhen<K, V>(t: seq<Slot<K, V>>, hashCode: K -> bv32, k: K, v: V)
    requires Inv(t, hashCode)
    ensures Contents(Insert(t, hashCode, k, v)) == Contents(t)[k := v] <==> Evicted(t, hashCode, k).None?
  {
    InsertCorrect(t, hashCode, k, v);
    if Evicted(t, hashCode, k).Some? {
      EvictedIsOther(t, hashCode, k);
      assert Evicted(t, hashCode, k).value in Contents(t)[k := v];
    }
  }

  /** A probe wraps exactly when none of its first (p + 1) / 2 slots stops it. */
  lemma WrapsExactlyWhen<K, V>(t: seq<Slot<K, V>>, hashCode: K -> bv32, k: K)
    requires Prime(|t|) && |t| > 2
    ensures Tries(t, hashCode, k) == |t| <==>
            forall j :: j in Reached(Home(hashCode, k, |t|), (|t| + 1) / 2, |t|) ==> !Stops(t[j], k)
  {
    var s, p := Home(hashCode, k, |t|), |t|;
    ProbeReach(s, p);
    assert forall j :: j in Reached(s, p, p) ==> 0 <= j < p;
    if Tries(t, hashCode, k) < p {
      assert Probe(s, Tries(t, hashCode, k), p) in Reached(s, p, p);
    }
  }

  ghost function Occupied<K, V>(t: seq<Slot<K, V>>): set<nat> {
    set j: nat | j < |t| && t[j].Entry?
  }

  /** While at most (p - 1) / 2 slots are occupied, tombstones included, no probe wraps. */
  lemma HalfEmptyNeverWraps<K, V>(t: seq<Slot<K, V>>, hashCode: K -> bv32, k: K)
    requires Prime(|t|) && |t| > 2 && 2 * |Occupied(t)| < |t|
    ensures Tries(t, hashCode, k) < |t|
  {
    var s, p := Home(hashCode, k, |t|), |t|;
    if Tries(t, hashCode, k) == p {
      WrapsExactlyWhen(t, hashCode, k);
      ProbeReach(s, p);
      assert Reached(s, (p + 1) / 2, p) <= Occupied(t);
      SubsetSize(Reached(s, (p + 1) / 2, p), Occupied(t));
    }
  }

  // ---------------------------------------------------------------- removal

  /** Removal leaves a tombstone, so every other path stays unbroken; the map loses exactly k. */
  lemma DeleteCorrect<K, V>(t: seq<Slot<K, V>>, hashCode: K -> bv32, k: K)
    requires Inv(t, hashCode)
    ensures Inv(Delete(t, hashCode, k), hashCode)
    ensures Contents(Delete(t, hashCode, k)) == Contents(t) - {k}
  {
    var t' := Delete(t, hashCode, k);
    var x := Target(t, hashCode, k);
    LookupIsContents(t, hashCode, k);
    assert Unique(t');
    forall j | 0 <= j < |t'| && Live(t'[j]) ensures OnPath(t', hashCode, j) {
      assert OnPath(t, hashCode, j);
      var s := Home(hashCode, t[j].key, |t|);
      var i: nat :| i < |t| && Probe(s, i, |t|) == j && forall l: nat :: l < i ==> t[Probe(s, l, |t|)].Entry?;
      assert forall l: nat :: l < i ==> t'[Probe(s, l, |t|)].Entry?;
    }
    if k in Contents(t) {
      forall q | q in Contents(t') ensures q in Contents(t) - {k} && Contents(t)[q] == Contents(t')[q] {
        var j := IndexOf(t', q);
        ContentsAt(t, j);
        ContentsAt(t', j);
        if q == k { TargetHoldsNoOtherCopy(t, hashCode, k, j); }
      }
      forall q | q in Contents(t) - {k} ensures q in Contents(t') {
        var j := IndexOf(t, q);
        ContentsAt(t', j);
      }
    }
  }
}
