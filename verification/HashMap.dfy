/**
  The mutable hash map and the hash set over it. Each method is proved against the table functions of
  HashTable and the state functions of HashRuns.
 */
module HashMap {
  import opened Options
  import opened Primes
  import opened Probing
  import opened HashTable
  import opened HashRuns

  method NewTable<K, V>(capacity: nat) returns (t: array<Slot<K, V>>)
    ensures fresh(t) && t[..] == Blank(capacity)
  {
    t := new Slot<K, V>[capacity](_ => Empty);
  }

  class GTUHashMap<K(==), V> {
    const hashCode: K -> bv32
    var table: array<Slot<K, V>>
    var size: int
    /** Live entries overwritten by wrapped puts since the last resize. */
    ghost var lost: nat

    ghost function State(): MapState<K, V>
      reads this, table
    {
      MapState(table[..], size)
    }

    ghost function Map(): map<K, V>
      reads this, table
    {
      Contents(table[..])
    }

    ghost predicate Valid()
      reads this, table
    {
      Inv(table[..], hashCode) && size == |Map()| + lost
    }

    constructor (hashCode: K -> bv32)
      ensures Valid() && fresh(table)
      ensures this.hashCode == hashCode && State() == Initial() && Map() == map[] && lost == 0
    {
      this.hashCode := hashCode;
      var capacity := NextPrime(INITIAL_CAPACITY);
      LeastPrimeIsUnique(INITIAL_CAPACITY, capacity);
      var t := NewTable(capacity);
      table := t;
      size := 0;
      lost := 0;
      new;
      InitialInv<K, V>(hashCode);
    }

    method GetIndex(key: K) returns (index: nat)
      requires table.Length > 0
      ensures index == Home(hashCode, key, table.Length) && index < table.Length
    {
      index := Home(hashCode, key, table.Length);
    }

    /** The probe loop: from a slot s over s + 1, s + 4, ... until an empty slot, the live key, or s again. */
    method ProbeFrom(startIndex: nat, key: K) returns (index: nat, wrapped: bool)
      requires Prime(table.Length) && startIndex < table.Length
      ensures index == Probe(startIndex, Find(table[..], startIndex, key, 0), table.Length) && index < table.Length
      ensures wrapped <==> Find(table[..], startIndex, key, 0) == table.Length
    {
      ghost var t := table[..];
      ghost var p := table.Length;
      index := startIndex;
      wrapped := false;
      var i := 1;
      ProbeReturnsHome(startIndex, p);
      while table[index].Entry?
        invariant 1 <= i <= p && index == Probe(startIndex, i - 1, p) && index < p
        invariant Find(t, startIndex, key, 0) == Find(t, startIndex, key, i - 1)
        decreases p - i
      {
        if LiveKey(table[index], key) {
          return;
        }
        assert !Stops(t[index], key);
        index := (startIndex + i * i) % table.Length;
        i := i + 1;
        if index == startIndex {
          if i - 1 < p { ProbesDistinct(startIndex, 0, i - 1, p); }
          wrapped := true;
          break;
        }
        assert i - 1 != p;
      }
    }

    /** The search shared by put, get, remove and containsKey: the probe loop from the home slot. */
    method Locate(key: K) returns (index: nat, wrapped: bool)
      requires Prime(table.Length)
      ensures index == Target(table[..], hashCode, key) && index < table.Length
      ensures wrapped <==> Tries(table[..], hashCode, key) == table.Length
    {
      var startIndex := GetIndex(key);
      index, wrapped := ProbeFrom(startIndex, key);
    }

    /** The part of put after the load test: write to the slot where the probe for key ends. */
    method Store(key: K, value: V)
      requires Valid()
      modifies this`size, table
      ensures table[..] == Insert(old(table[..]), hashCode, key, value)
      ensures size == if Lookup(old(table[..]), hashCode, key).Some? then old(size) else old(size) + 1
    {
      var index, wrapped := Locate(key);
      if !wrapped && table[index].Entry? {
        table[index] := Entry(key, value, table[index].isDeleted);
      } else {
        table[index] := Entry(key, value, false);
        size := size + 1;
      }
    }

    /** The load test of put. */
    method MakeRoom()
      requires Valid()
      modifies this
      ensures Valid() && (table == old(table) || fresh(table))
      ensures State() == Prepared(old(State()), hashCode)
      ensures lost == if Crowded(old(State())) then 0 else old(lost)
      decreases if Crowded(State()) then 1 else 0, 2
    {
      if 4 * size >= 3 * table.Length {
        Resize();
      }
    }

    /** A put of a key that is not null. */
    method PutKey(key: K, value: V)
      requires Valid()
      modifies this, table
      ensures Valid() && (table == old(table) || fresh(table))
      ensures State() == PutState(old(State()), hashCode, key, value)
      ensures lost == (if Crowded(old(State())) then 0 else old(lost))
                      + (if Evicted(Prepared(old(State()), hashCode).table, hashCode, key).Some? then 1 else 0)
      decreases if Crowded(State()) then 1 else 0, 3
    {
      PutKeepsSize(State(), hashCode, key, value, lost);
      MakeRoom();
      ghost var gone := Evicted(table[..], hashCode, key);
      Store(key, value);
      lost := lost + if gone.Some? then 1 else 0;
    }

    method Put(key: Option<K>, value: V) returns (accepted: bool)
      requires Valid()
      modifies this, table
      ensures Valid() && (table == old(table) || fresh(table))
      ensures accepted <==> key.Some?
      ensures key.None? ==> State() == old(State()) && lost == old(lost) && table == old(table)
      ensures key.Some? ==> State() == PutState(old(State()), hashCode, key.value, value)
      ensures key.Some? ==> (table.Length > old(table.Length) <==> 4 * old(size) >= 3 * old(table.Length))
      ensures key.Some? && 4 * old(size) >= 3 * old(table.Length) ==> Map() == old(Map())[key.value := value]
      ensures key.Some? ==>
                lost == (if Crowded(old(State())) then 0 else old(lost))
                        + (if Evicted(Prepared(old(State()), hashCode).table, hashCode, key.value).Some? then 1 else 0)
      decreases if Crowded(State()) then 1 else 0, 4
    {
      if key.None? { return false; }
      PutResizesExactlyWhen(State(), hashCode, key.value, value);
      PutKey(key.value, value);
      return true;
    }

    method Get(key: Option<K>) returns (value: Option<V>)
      requires Valid()
      ensures value == if key.Some? && key.value in Map() then Some(Map()[key.value]) else None
    {
      if key.None? { return None; }
      LookupIsContents(table[..], hashCode, key.value);
      var index, wrapped := Locate(key.value);
      return if !wrapped && table[index].Entry? then Some(table[index].value) else None;
    }

    method ContainsKey(key: Option<K>) returns (found: bool)
      requires Valid()
      ensures found <==> key.Some? && key.value in Map()
    {
      if key.None? { return false; }
      LookupIsContents(table[..], hashCode, key.value);
      var index, wrapped := Locate(key.value);
      return !wrapped && table[index].Entry?;
    }

    /** Turns the live entry of key, if there is one, into a tombstone. */
    method Bury(key: K)
      requires Valid()
      modifies this`size, table
      ensures State() == RemoveState(old(State()), hashCode, key)
    {
      var index, wrapped := Locate(key);
      if !wrapped && table[index].Entry? {
        table[index] := table[index].(isDeleted := true);
        size := size - 1;
      }
    }

    method Remove(key: Option<K>)
      requires Valid()
      modifies this`size, table
      ensures Valid()
      ensures State() == if key.None? then old(State()) else RemoveState(old(State()), hashCode, key.value)
      ensures Map() == if key.None? then old(Map()) else old(Map()) - {key.value}
    {
      if key.None? { return; }
      RemoveStateCorrect(State(), hashCode, key.value);
      Bury(key.value);
    }

    /** Moves to an empty table of the next prime length past double, then refills it. */
    method Resize()
      requires Valid()
      modifies this
      ensures Valid() && fresh(table)
      ensures State() == Resized(old(State()), hashCode) && lost == 0
      ensures Map() == old(Map())
      decreases 1, 1
    {
      ResizeReady(State(), hashCode);
      var oldTable := table;
      var newCapacity := NextPrime(oldTable.Length * 2);
      LeastPrimeIsUnique(oldTable.Length * 2, newCapacity);
      table := NewTable(newCapacity);
      size := 0;
      lost := 0;
      Refill(oldTable);
    }

    /** Puts every live entry of the old table; the load test inside put never fires here. */
    method Refill(oldTable: array<Slot<K, V>>)
      requires table != oldTable && Prime(table.Length) && table.Length > 2 && table.Length > 2 * oldTable.Length
      requires Unique(oldTable[..]) && State() == MapState(Blank(table.Length), 0) && lost == 0
      modifies this, table
      ensures State() == RehashState(old(oldTable[..]), old(table.Length), hashCode) && lost == 0
      ensures table == old(table) || fresh(table)
      decreases 1, 0
    {
      ghost var src, p := oldTable[..], table.Length;
      RehashNone<K, V>(p, hashCode);
      for i := 0 to oldTable.Length
        invariant oldTable[..] == src && table != oldTable && (table == old(table) || fresh(table))
        invariant State() == RehashState(src[..i], p, hashCode) && lost == 0
      {
        RehashStep(src, i, p, hashCode);
        if Live(oldTable[i]) {
          var accepted := Put(Some(oldTable[i].key), oldTable[i].value);
        }
      }
      assert src[..|src|] == src;
    }
  }

  ghost function RehashState<K, V>(src: seq<Slot<K, V>>, p: nat, hashCode: K -> bv32): MapState<K, V>
    requires p > 0
  {
    MapState(Rehash(src, p, hashCode), |Contents(src)|)
  }

  lemma LeastPrimeIsUnique(n: nat, p: int)
    requires IsLeastPrime(n, p)
    ensures p == LeastPrime(n)
  {}

  /** What the resize method needs to know of the state it must reach. */
  lemma ResizeReady<K, V>(st: MapState<K, V>, hashCode: K -> bv32)
    requires Inv(st.table, hashCode)
    ensures var p := LeastPrime(2 * |st.table|);
            var st' := Resized(st, hashCode);
            && p > 2 * |st.table| && st' == RehashState(st.table, p, hashCode)
            && Inv(st'.table, hashCode) && Contents(st'.table) == Contents(st.table)
  {
    ResizeCorrect(st, hashCode);
  }

  /** The part of the effect of a put that the object's validity needs. */
  lemma PutKeepsSize<K, V>(st: MapState<K, V>, hashCode: K -> bv32, k: K, v: V, lost: int)
    requires Inv(st.table, hashCode) && st.size == |Contents(st.table)| + lost
    ensures var st' := PutState(st, hashCode, k, v);
            && Inv(st'.table, hashCode)
            && st'.size == |Contents(st'.table)| + (if Crowded(st) then 0 else lost)
                           + (if Evicted(Prepared(st, hashCode).table, hashCode, k).Some? then 1 else 0)
  {
    PutStateCorrect(st, hashCode, k, v, lost);
  }

  lemma RehashNone<K, V>(p: nat, hashCode: K -> bv32)
    requires p > 0
    ensures RehashState<K, V>([], p, hashCode) == MapState(Blank(p), 0)
  {}

  /** One step of the rehash loop is one put that neither resizes again nor evicts. */
  lemma RehashStep<K, V>(src: seq<Slot<K, V>>, i: nat, p: nat, hashCode: K -> bv32)
    requires Unique(src) && i < |src| && Prime(p) && p > 2 && p > 2 * |src|
    ensures var st := RehashState(src[..i], p, hashCode);
            var st' := RehashState(src[..i + 1], p, hashCode);
            && Inv(st.table, hashCode) && st.size == |Contents(st.table)|
            && !Crowded(st)
            && (Live(src[i]) ==> st' == PutState(st, hashCode, src[i].key, src[i].value)
                                 && Evicted(st.table, hashCode, src[i].key).None?)
            && (!Live(src[i]) ==> st' == st)
  {
    var st := RehashState(src[..i], p, hashCode);
    assert src[..i + 1] == src[..i] + [src[i]] && src[..i + 1][..i] == src[..i];
    ContentsSnoc(src[..i], src[i]);
    RehashPreservesContents(src[..i], p, hashCode);
    ContentsBound(src[..i]);
    if Live(src[i]) {
      HalfEmptyNeverWraps(st.table, hashCode, src[i].key);
      LookupIsContents(st.table, hashCode, src[i].key);
      UpdateSize(Contents(src[..i]), src[i].key, src[i].value);
    }
  }

  lemma {:induction false} ContentsBound<K, V>(t: seq<Slot<K, V>>)
    requires Unique(t)
    ensures |Contents(t)| <= |t|
  {
    if t == [] {
      assert Contents(t) == map[];
    } else {
      var n := |t| - 1;
      assert t == t[..n] + [t[n]];
      ContentsSnoc(t[..n], t[n]);
      ContentsBound(t[..n]);
      if Live(t[n]) { UpdateSize(Contents(t[..n]), t[n].key, t[n].value); }
    }
  }

  /** The keys after a put: the old ones without an evicted one, and the key. */
  ghost function KeysAfterPut<K, V>(st: MapState<K, V>, hashCode: K -> bv32, k: K): set<K>
    requires Inv(st.table, hashCode)
  {
    PreparedCorrect(st, hashCode);
    var gone := Evicted(Prepared(st, hashCode).table, hashCode, k);
    (if gone.Some? then Contents(st.table).Keys - {gone.value} else Contents(st.table).Keys) + {k}
  }

  lemma KeysOfPut<K, V>(st: MapState<K, V>, hashCode: K -> bv32, k: K, v: V)
    requires Inv(st.table, hashCode)
    ensures Contents(PutState(st, hashCode, k, v).table).Keys == KeysAfterPut(st, hashCode, k)
    ensures KeysAfterPut(st, hashCode, k) <= Contents(st.table).Keys + {k}
  {
    PutStateCorrect(st, hashCode, k, v, st.size - |Contents(st.table)|);
  }

  /** The set of a map's keys; the stored value carries nothing. */
  class GTUHashSet<E(==)> {
    const map_: GTUHashMap<E, ()>

    /** The elements: the keys of the map. */
    ghost var members: set<E>

    ghost predicate Valid()
      reads this, map_, map_.table
    {
      map_.Valid() && members == map_.Map().Keys
    }

    constructor (hashCode: E -> bv32)
      ensures Valid() && fresh(map_) && fresh(map_.table)
      ensures members == {} && map_.hashCode == hashCode
    {
      map_ := new GTUHashMap(hashCode);
      members := {};
    }

    /** A set none of whose objects changed is still valid. */
    twostate lemma StaysValid()
      requires old(Valid()) && unchanged(this) && unchanged(map_) && unchanged(map_.table)
      ensures Valid()
    {}

    method Contains(element: Option<E>) returns (found: bool)
      requires Valid()
      ensures found <==> element.Some? && element.value in members
    {
      found := map_.ContainsKey(element);
    }

    /** The element is in the set afterwards and nothing else is new; an eviction may drop one other element. */
    method Add(element: Option<E>) returns (accepted: bool, isNew: bool)
      requires Valid()
      modifies this, map_, map_.table
      ensures Valid() && (map_.table == old(map_.table) || fresh(map_.table))
      ensures accepted <==> element.Some?
      ensures isNew <==> !(element.Some? && element.value in old(members))
      ensures members == if element.None? then old(members)
                            else KeysAfterPut(old(map_.State()), map_.hashCode, element.value)
    {
      var contains := Contains(element);
      if element.Some? { KeysOfPut(map_.State(), map_.hashCode, element.value, ()); }
      accepted := map_.Put(element, ());
      members := map_.Map().Keys;
      return accepted, !contains;
    }

    method Remove(element: Option<E>) returns (wasPresent: bool)
      requires Valid()
      modifies this, map_`size, map_.table
      ensures Valid()
      ensures wasPresent <==> element.Some? && element.value in old(members)
      ensures members == if element.Some? then old(members) - {element.value} else old(members)
    {
      wasPresent := Contains(element);
      Drop(element);
      members := map_.Map().Keys;
    }

    method Drop(element: Option<E>)
      requires map_.Valid()
      modifies map_`size, map_.table
      ensures map_.Valid()
      ensures map_.Map().Keys == if element.Some? then old(map_.Map().Keys) - {element.value} else old(map_.Map().Keys)
    {
      map_.Remove(element);
    }
  }
}
