/**
  The three sorters: insertion sort, selection sort, and quicksort that hands short ranges to another
  sorter, itself possibly a hybrid quicksort. All sort a range in place under any comparator that is a total
  preorder; insertion sort is also stable.
 */
module Sorting {
  import opened Options

  type Comparator<!T> = (T, T) -> int

  ghost predicate OppositeSigns<T>(cmp: Comparator<T>, x: T, y: T) {
    cmp(x, y) < 0 <==> cmp(y, x) > 0
  }

  ghost predicate Chains<T>(cmp: Comparator<T>, x: T, y: T, z: T) {
    cmp(x, y) <= 0 && cmp(y, z) <= 0 ==> cmp(x, z) <= 0
  }

  /** What a comparator promises: opposite signs when swapped, and transitivity. */
  ghost predicate TotalPreorder<T(!new)>(cmp: Comparator<T>) {
    && (forall x, y :: OppositeSigns(cmp, x, y))
    && (forall x, y, z :: Chains(cmp, x, y, z))
  }

  lemma Reversed<T(!new)>(cmp: Comparator<T>, x: T, y: T)
    requires TotalPreorder(cmp)
    ensures cmp(x, y) < 0 <==> cmp(y, x) > 0
    ensures cmp(x, y) > 0 <==> cmp(y, x) < 0
    ensures cmp(x, y) <= 0 <==> cmp(y, x) >= 0
  {
    assert OppositeSigns(cmp, x, y) && OppositeSigns(cmp, y, x);
  }

  lemma Transitive<T(!new)>(cmp: Comparator<T>, x: T, y: T, z: T)
    requires TotalPreorder(cmp) && cmp(x, y) <= 0 && cmp(y, z) <= 0
    ensures cmp(x, z) <= 0
  {
    assert Chains(cmp, x, y, z);
  }

  ghost predicate Sorted<T>(s: seq<T>, start: nat, end: nat, cmp: Comparator<T>) {
    end <= |s| && forall i, j :: start <= i < j < end ==> cmp(s[i], s[j]) <= 0
  }

  /** One sequence permutes the other and differs from it only inside a range. */
  ghost predicate PermutedWithin<T>(s: seq<T>, t: seq<T>, start: nat, end: nat) {
    && |s| == |t| && start <= end <= |s|
    && (forall k :: 0 <= k < |s| && !(start <= k < end) ==> s[k] == t[k])
    && multiset(s) == multiset(t)
  }

  /** The contract every sorter meets. */
  ghost predicate SortsRange<T>(s: seq<T>, t: seq<T>, start: nat, end: nat, cmp: Comparator<T>) {
    PermutedWithin(s, t, start, end) && Sorted(t, start, end, cmp)
  }

  lemma MiddleSplits<T>(s: seq<T>, start: nat, end: nat)
    requires start <= end <= |s|
    ensures multiset(s) == multiset(s[..start]) + multiset(s[start..end]) + multiset(s[end..])
  {
    assert s == s[..start] + s[start..end] + s[end..];
  }

  lemma MultisetCancels<T>(a: multiset<T>, b: multiset<T>, c: multiset<T>, b': multiset<T>)
    requires a + b + c == a + b' + c
    ensures b == b'
  {
    forall x ensures b[x] == b'[x] { assert (a + b + c)[x] == (a + b' + c)[x]; }
  }

  /** So the range itself is permuted. */
  lemma RangePermuted<T>(s: seq<T>, t: seq<T>, start: nat, end: nat)
    requires PermutedWithin(s, t, start, end)
    ensures multiset(s[start..end]) == multiset(t[start..end])
  {
    MiddleSplits(s, start, end);
    MiddleSplits(t, start, end);
    assert s[..start] == t[..start] && s[end..] == t[end..];
    MultisetCancels(multiset(s[..start]), multiset(s[start..end]), multiset(s[end..]), multiset(t[start..end]));
  }

  // ---------------------------------------------------------------- stability

  /** The elements equivalent to x, in order. A stable sort keeps every one of these subsequences. */
  ghost function Class<T>(s: seq<T>, x: T, cmp: Comparator<T>): seq<T> {
    if s == [] then []
    else Class(s[..|s| - 1], x, cmp) + (if cmp(s[|s| - 1], x) == 0 then [s[|s| - 1]] else [])
  }

  ghost predicate SameClass<T>(s: seq<T>, t: seq<T>, x: T, cmp: Comparator<T>) {
    Class(s, x, cmp) == Class(t, x, cmp)
  }

  ghost predicate Stable<T(!new)>(s: seq<T>, t: seq<T>, cmp: Comparator<T>) {
    forall x :: SameClass(s, t, x, cmp)
  }

  lemma StableTransitive<T(!new)>(s: seq<T>, t: seq<T>, r: seq<T>, cmp: Comparator<T>)
    requires Stable(s, t, cmp) && Stable(t, r, cmp)
    ensures Stable(s, r, cmp)
  {
    forall x ensures SameClass(s, r, x, cmp) { assert SameClass(s, t, x, cmp) && SameClass(t, r, x, cmp); }
  }

  lemma {:induction false} ClassConcat<T>(s: seq<T>, t: seq<T>, x: T, cmp: Comparator<T>)
    ensures Class(s + t, x, cmp) == Class(s, x, cmp) + Class(t, x, cmp)
  {
    if t == [] {
      assert s + t == s;
    } else {
      var n := |t| - 1;
      ClassConcat(s, t[..n], x, cmp);
      assert (s + t)[..|s + t| - 1] == s + t[..n];
      assert (s + t)[|s + t| - 1] == t[n];
    }
  }

  /** Elements strictly greater than the key are in other classes. */
  lemma {:induction false} ClassOfGreater<T(!new)>(v: seq<T>, key: T, x: T, cmp: Comparator<T>)
    requires TotalPreorder(cmp) && cmp(key, x) == 0 && forall i :: 0 <= i < |v| ==> cmp(v[i], key) > 0
    ensures Class(v, x, cmp) == []
  {
    if v != [] {
      var n := |v| - 1;
      ClassOfGreater(v[..n], key, x, cmp);
      Reversed(cmp, key, x);
      if cmp(v[n], x) == 0 { Transitive(cmp, v[n], x, key); }
    }
  }

  /** Moving the key left past strictly greater elements keeps every class. */
  lemma InsertIsStable<T(!new)>(u: seq<T>, v: seq<T>, key: T, cmp: Comparator<T>)
    requires TotalPreorder(cmp) && forall i :: 0 <= i < |v| ==> cmp(v[i], key) > 0
    ensures Stable(u + v + [key], u + [key] + v, cmp)
  {
    forall x ensures SameClass(u + v + [key], u + [key] + v, x, cmp) {
      InsertKeepsClass(u, v, key, x, cmp);
    }
  }

  lemma InsertKeepsClass<T(!new)>(u: seq<T>, v: seq<T>, key: T, x: T, cmp: Comparator<T>)
    requires TotalPreorder(cmp) && forall i :: 0 <= i < |v| ==> cmp(v[i], key) > 0
    ensures Class(u + v + [key], x, cmp) == Class(u + [key] + v, x, cmp)
  {
    var cu, cv, ck := Class(u, x, cmp), Class(v, x, cmp), Class([key], x, cmp);
    ClassConcat(u + v, [key], x, cmp);
    ClassConcat(u, v, x, cmp);
    ClassConcat(u + [key], v, x, cmp);
    ClassConcat(u, [key], x, cmp);
    if cmp(key, x) == 0 { ClassOfGreater(v, key, x, cmp); } else { assert ck == []; }
    EmptyCommutes(cu, cv, ck);
  }

  lemma EmptyCommutes<T>(a: seq<T>, b: seq<T>, c: seq<T>)
    requires b == [] || c == []
    ensures a + b + c == a + c + b
  {}

  // ---------------------------------------------------------------- insertion sort

  /** The sequence with its element at `from` moved left to `to`. */
  ghost function MovedLeft<T>(s: seq<T>, to: nat, from: nat): (t: seq<T>)
    requires to <= from < |s|
    ensures |t| == |s|
  {
    s[..to] + [s[from]] + s[to..from] + s[from + 1..]
  }

  lemma IsMovedLeft<T>(s: seq<T>, t: seq<T>, to: nat, from: nat)
    requires to <= from < |s| == |t| && t[to] == s[from]
    requires forall k :: 0 <= k < to ==> t[k] == s[k]
    requires forall k :: to < k <= from ==> t[k] == s[k - 1]
    requires forall k :: from < k < |s| ==> t[k] == s[k]
    ensures t == MovedLeft(s, to, from)
  {}

  /** The inner loop: shift greater elements right, then drop the key into the gap. */
  method PlaceKey<T>(a: array<T>, start: nat, i: nat, cmp: Comparator<T>) returns (ghost place: nat)
    requires start < i < a.Length
    modifies a
    ensures start <= place <= i && a[..] == MovedLeft(old(a[..]), place, i)
    ensures forall k :: place <= k < i ==> cmp(old(a[..])[k], old(a[i])) > 0
    ensures place == start || cmp(old(a[..])[place - 1], old(a[i])) <= 0
  {
    ghost var before := a[..];
    var key := a[i];
    var j: int := i - 1;
    while j >= start && cmp(a[j], key) > 0
      invariant start - 1 <= j < i
      invariant forall k :: 0 <= k <= j ==> a[k] == before[k]
      invariant forall k :: j + 2 <= k <= i ==> a[k] == before[k - 1]
      invariant forall k :: i < k < a.Length ==> a[k] == before[k]
      invariant forall k :: j + 1 <= k < i ==> cmp(before[k], key) > 0
    {
      a[j + 1] := a[j];
      j := j - 1;
    }
    a[j + 1] := key;
    place := j + 1;
    IsMovedLeft(before, a[..], place, i);
  }

  lemma MovePermutes<T>(s: seq<T>, start: nat, place: nat, i: nat)
    requires start <= place <= i < |s|
    ensures PermutedWithin(s, MovedLeft(s, place, i), start, i + 1)
  {
    assert s == s[..place] + s[place..i] + [s[i]] + s[i + 1..];
  }

  lemma MoveSorts<T(!new)>(s: seq<T>, start: nat, place: nat, i: nat, cmp: Comparator<T>)
    requires TotalPreorder(cmp) && start <= place <= i < |s| && Sorted(s, start, i, cmp)
    requires forall k :: place <= k < i ==> cmp(s[k], s[i]) > 0
    requires place == start || cmp(s[place - 1], s[i]) <= 0
    ensures Sorted(MovedLeft(s, place, i), start, i + 1, cmp)
  {
    var t := MovedLeft(s, place, i);
    forall j, k | start <= j < k < i + 1 ensures cmp(t[j], t[k]) <= 0 {
      if j == place {
        Reversed(cmp, s[i], s[k - 1]);
      } else if k == place {
        if j < place - 1 { Transitive(cmp, s[j], s[place - 1], s[i]); }
      }
    }
  }

  lemma StableExtend<T(!new)>(s: seq<T>, t: seq<T>, tail: seq<T>, cmp: Comparator<T>)
    requires Stable(s, t, cmp)
    ensures Stable(s + tail, t + tail, cmp)
  {
    forall x ensures SameClass(s + tail, t + tail, x, cmp) {
      assert SameClass(s, t, x, cmp);
      ClassConcat(s, tail, x, cmp);
      ClassConcat(t, tail, x, cmp);
    }
  }

  lemma MoveIsStable<T(!new)>(s: seq<T>, place: nat, i: nat, cmp: Comparator<T>)
    requires TotalPreorder(cmp) && place <= i < |s| && forall k :: place <= k < i ==> cmp(s[k], s[i]) > 0
    ensures Stable(s, MovedLeft(s, place, i), cmp)
  {
    var u, v, key, tail := s[..place], s[place..i], s[i], s[i + 1..];
    InsertIsStable(u, v, key, cmp);
    StableExtend(u + v + [key], u + [key] + v, tail, cmp);
    assert s == u + v + [key] + tail;
  }

  /** Sorted up to i, as a stable rearrangement of the original s. */
  ghost predicate InsertedUpTo<T(!new)>(s: seq<T>, t: seq<T>, start: nat, i: nat, cmp: Comparator<T>) {
    SortsRange(s, t, start, i, cmp) && Stable(s, t, cmp)
  }

  /** What one round of insertion does. */
  lemma InsertRound<T(!new)>(s: seq<T>, t: seq<T>, start: nat, place: nat, i: nat, cmp: Comparator<T>)
    requires TotalPreorder(cmp) && start <= place <= i < |s| && InsertedUpTo(s, t, start, i, cmp)
    requires forall k :: place <= k < i ==> cmp(t[k], t[i]) > 0
    requires place == start || cmp(t[place - 1], t[i]) <= 0
    ensures InsertedUpTo(s, MovedLeft(t, place, i), start, i + 1, cmp)
  {
    var r := MovedLeft(t, place, i);
    MovePermutes(t, start, place, i);
    MoveSorts(t, start, place, i, cmp);
    MoveIsStable(t, place, i, cmp);
    StableTransitive(s, t, r, cmp);
    PermutedWiden(s, t, start, i, start, i + 1);
    PermutedTransitive(s, t, r, start, i + 1);
  }

  method InsertSort<T(!new)>(a: array<T>, start: nat, end: nat, cmp: Comparator<T>)
    requires TotalPreorder(cmp) && start <= end <= a.Length
    modifies a
    ensures SortsRange(old(a[..]), a[..], start, end, cmp)
    ensures Stable(old(a[..]), a[..], cmp)
  {
    var i := start + 1;
    while i < end
      invariant start < i && (i <= end || (start == end && a[..] == old(a[..])))
      invariant i <= end ==> InsertedUpTo(old(a[..]), a[..], start, i, cmp)
    {
      ghost var t := a[..];
      ghost var place := PlaceKey(a, start, i, cmp);
      InsertRound(old(a[..]), t, start, place, i, cmp);
      i := i + 1;
    }
  }

  // ---------------------------------------------------------------- swaps

  method SwapAt<T>(a: array<T>, i: nat, j: nat, ghost start: nat, ghost end: nat)
    requires start <= i < end <= a.Length && start <= j < end
    modifies a
    ensures a[..] == old(a[..])[i := old(a[j])][j := old(a[i])]
    ensures PermutedWithin(old(a[..]), a[..], start, end)
  {
    ghost var s := a[..];
    var temp := a[i];
    a[i] := a[j];
    a[j] := temp;
    SwapPermutesWithin(s, i, j, start, end);
  }

  lemma SwapPermutesWithin<T>(s: seq<T>, i: nat, j: nat, start: nat, end: nat)
    requires start <= i < end <= |s| && start <= j < end
    ensures PermutedWithin(s, s[i := s[j]][j := s[i]], start, end)
  {}

  lemma PermutedTransitive<T>(s: seq<T>, t: seq<T>, r: seq<T>, start: nat, end: nat)
    requires PermutedWithin(s, t, start, end) && PermutedWithin(t, r, start, end)
    ensures PermutedWithin(s, r, start, end)
  {}

  /** A permutation of a smaller range is one of any range around it. */
  lemma PermutedWiden<T>(s: seq<T>, t: seq<T>, from: nat, to: nat, start: nat, end: nat)
    requires PermutedWithin(s, t, from, to) && start <= from && to <= end <= |s|
    ensures PermutedWithin(s, t, start, end)
  {}

  // ---------------------------------------------------------------- selection sort

  /** The index of a least element of the range. */
  method LeastFrom<T(!new)>(a: array<T>, i: nat, end: nat, cmp: Comparator<T>) returns (least: nat)
    requires TotalPreorder(cmp) && i < end <= a.Length
    ensures i <= least < end && forall k :: i <= k < end ==> cmp(a[least], a[k]) <= 0
  {
    least := i;
    Reversed(cmp, a[i], a[i]);
    for j := i + 1 to end
      invariant i <= least < j && forall k :: i <= k < j ==> cmp(a[least], a[k]) <= 0
    {
      Reversed(cmp, a[j], a[j]);
      Reversed(cmp, a[j], a[least]);
      if cmp(a[j], a[least]) < 0 {
        forall k | i <= k < j ensures cmp(a[j], a[k]) <= 0 { Transitive(cmp, a[j], a[least], a[k]); }
        least := j;
      }
    }
  }

  /** The first i elements of the range are sorted and none is greater than any later one. */
  ghost predicate Selected<T>(s: seq<T>, start: nat, i: nat, end: nat, cmp: Comparator<T>) {
    && start <= i <= end <= |s|
    && forall j, k :: start <= j < i && j < k < end ==> cmp(s[j], s[k]) <= 0
  }

  lemma SelectStep<T>(s: seq<T>, start: nat, i: nat, least: nat, end: nat, cmp: Comparator<T>)
    requires Selected(s, start, i, end, cmp) && i <= least < end
    requires forall k :: i <= k < end ==> cmp(s[least], s[k]) <= 0
    ensures Selected(s[i := s[least]][least := s[i]], start, i + 1, end, cmp)
  {}

  method SelectSort<T(!new)>(a: array<T>, start: nat, end: nat, cmp: Comparator<T>)
    requires TotalPreorder(cmp) && start <= end <= a.Length
    modifies a
    ensures SortsRange(old(a[..]), a[..], start, end, cmp)
  {
    ghost var s := a[..];
    var i := start;
    while i + 1 < end
      invariant Selected(a[..], start, i, end, cmp) && PermutedWithin(s, a[..], start, end)
    {
      ghost var t := a[..];
      var minIndex := LeastFrom(a, i, end, cmp);
      SelectStep(t, start, i, minIndex, end, cmp);
      if minIndex != i {
        SwapAt(a, i, minIndex, start, end);
        PermutedTransitive(s, t, a[..], start, end);
      }
      i := i + 1;
    }
    SelectedIsSorted(a[..], start, i, end, cmp);
  }

  lemma SelectedIsSorted<T>(s: seq<T>, start: nat, i: nat, end: nat, cmp: Comparator<T>)
    requires Selected(s, start, i, end, cmp) && i + 1 >= end
    ensures Sorted(s, start, end, cmp)
  {}

  // ---------------------------------------------------------------- hybrid quicksort

  /** Everything below p in the range is less than the pivot at p, everything above is not. */
  ghost predicate Partitioned<T>(s: seq<T>, start: nat, p: nat, end: nat, cmp: Comparator<T>) {
    && start <= p < end <= |s|
    && (forall k :: start <= k < p ==> cmp(s[k], s[p]) < 0)
    && (forall k :: p < k < end ==> cmp(s[k], s[p]) >= 0)
  }

  /** Mid-loop: with the pivot at start, elements up to i are less than it, those from i to j are not. */
  ghost predicate Split<T>(s: seq<T>, start: nat, i: nat, j: nat, cmp: Comparator<T>) {
    && start < i <= j <= |s|
    && (forall k :: start < k < i ==> cmp(s[k], s[start]) < 0)
    && (forall k :: i <= k < j ==> cmp(s[k], s[start]) >= 0)
  }

  lemma SplitSwap<T>(s: seq<T>, start: nat, i: nat, j: nat, cmp: Comparator<T>)
    requires Split(s, start, i, j, cmp) && j < |s| && cmp(s[j], s[start]) < 0
    ensures Split(s[i := s[j]][j := s[i]], start, i + 1, j + 1, cmp)
  {}

  lemma SplitEnds<T>(s: seq<T>, start: nat, i: nat, end: nat, cmp: Comparator<T>)
    requires Split(s, start, i, end, cmp)
    ensures Partitioned(s[start := s[i - 1]][i - 1 := s[start]], start, i - 1, end, cmp)
  {}

  method PartitionLoop<T>(a: array<T>, start: nat, end: nat, cmp: Comparator<T>) returns (i: nat)
    requires start < end <= a.Length
    modifies a
    ensures PermutedWithin(old(a[..]), a[..], start, end) && Split(a[..], start, i, end, cmp)
  {
    ghost var s := a[..];
    var pivot := a[start];
    i := start + 1;
    for j := start + 1 to end
      invariant Split(a[..], start, i, j, cmp) && a[start] == pivot
      invariant PermutedWithin(s, a[..], start, end)
    {
      if cmp(a[j], pivot) < 0 {
        ghost var t := a[..];
        SplitSwap(t, start, i, j, cmp);
        SwapAt(a, i, j, start, end);
        PermutedTransitive(s, t, a[..], start, end);
        i := i + 1;
      }
    }
  }

  /** The pivot is any element of the range: `choice` stands for the random number drawn. */
  method Partition<T>(a: array<T>, start: nat, end: nat, cmp: Comparator<T>, choice: nat) returns (p: nat)
    requires start < end <= a.Length && start <= choice < end
    modifies a
    ensures PermutedWithin(old(a[..]), a[..], start, end) && Partitioned(a[..], start, p, end, cmp)
  {
    ghost var s := a[..];
    SwapAt(a, start, choice, start, end);
    ghost var t := a[..];
    var i := PartitionLoop(a, start, end, cmp);
    PermutedTransitive(s, t, a[..], start, end);
    t := a[..];
    SplitEnds(t, start, i, end, cmp);
    SwapAt(a, start, i - 1, start, end);
    PermutedTransitive(s, t, a[..], start, end);
    p := i - 1;
  }

  /** Permuting one side of the pivot keeps the partition. */
  lemma PartitionKept<T>(s: seq<T>, t: seq<T>, from: nat, to: nat, start: nat, p: nat, end: nat, cmp: Comparator<T>)
    requires Partitioned(s, start, p, end, cmp) && PermutedWithin(s, t, from, to)
    requires (from == start && to == p) || (from == p + 1 && to == end)
    ensures Partitioned(t, start, p, end, cmp)
  {
    RangePermuted(s, t, from, to);
    forall k | from <= k < to ensures exists l :: from <= l < to && s[l] == t[k] {
      assert t[k] in multiset(t[from..to]) by { assert t[from..to][k - from] == t[k]; }
      assert t[k] in s[from..to];
    }
  }

  lemma SortedHalves<T(!new)>(s: seq<T>, start: nat, p: nat, end: nat, cmp: Comparator<T>)
    requires TotalPreorder(cmp) && Partitioned(s, start, p, end, cmp)
    requires Sorted(s, start, p, cmp) && Sorted(s, p + 1, end, cmp)
    ensures Sorted(s, start, end, cmp)
  {
    forall i, j | start <= i < j < end && i <= p <= j ensures cmp(s[i], s[j]) <= 0 {
      if j > p { Reversed(cmp, s[j], s[p]); }
      if i < p < j { Transitive(cmp, s[i], s[p], s[j]); }
    }
  }

  /** A sorter of some other kind, as what it leaves in the array; `draw` stands for its random choices. */
  type OtherSort<!T> = (seq<T>, nat, nat, int) -> seq<T>

  ghost predicate SortsOnce<T>(other: OtherSort<T>, s: seq<T>, start: nat, end: nat, draw: int, cmp: Comparator<T>) {
    start <= end <= |s| ==> SortsRange(s, other(s, start, end, draw), start, end, cmp)
  }

  ghost predicate SortsAlways<T(!new)>(other: OtherSort<T>, cmp: Comparator<T>) {
    forall s: seq<T>, start: nat, end: nat, draw: int :: SortsOnce(other, s, start, end, draw, cmp)
  }

  /** A sorter: one of the program's own, with limit and sub-sorter fixed at construction, or any other. */
  datatype Sorter<!T> =
    | InsertSorter
    | SelectSorter
    | QuickSorter(sub: Option<Sorter<T>>, limit: int)
    | OtherSorter(other: OtherSort<T>)

  /** Sorters of other kinds, wherever they are nested, must sort; the program's own need no promise. */
  ghost predicate MeetsContract<T(!new)>(sorter: Sorter<T>, cmp: Comparator<T>) {
    match sorter
    case OtherSorter(other) => SortsAlways(other, cmp)
    case QuickSorter(Some(sub), _) => MeetsContract(sub, cmp)
    case _ => true
  }

  method Overwrite<T>(a: array<T>, s: seq<T>)
    requires |s| == a.Length
    modifies a
    ensures a[..] == s
  {
    forall i | 0 <= i < a.Length { a[i] := s[i]; }
  }

  /**
    Any sorter sorts the range, permutes only the range, and ends, whatever pivots are drawn, however the
    sub-sorters are nested, and whatever other sorters that meet the same contract are among them.
   */
  method Sort<T(!new)>(sorter: Sorter<T>, a: array<T>, start: nat, end: nat, cmp: Comparator<T>)
    requires TotalPreorder(cmp) && MeetsContract(sorter, cmp) && start <= end <= a.Length
    modifies a
    ensures SortsRange(old(a[..]), a[..], start, end, cmp)
    decreases sorter, end - start
  {
    match sorter {
      case InsertSorter => InsertSort(a, start, end, cmp);
      case SelectSorter => SelectSort(a, start, end, cmp);
      case OtherSorter(other) =>
        var draw: int := *;
        assert SortsOnce(other, a[..], start, end, draw, cmp);
        Overwrite(a, other(a[..], start, end, draw));
      case QuickSorter(sub, limit) =>
        var length := end - start;
        if sub.Some? && length <= limit && length > 1 {
          Sort(sub.value, a, start, end, cmp);
          return;
        }
        if length <= 1 { return; }
        var choice: nat :| start <= choice < end;
        ghost var s := a[..];
        var p := Partition(a, start, end, cmp, choice);
        ghost var t := a[..];
        Sort(sorter, a, start, p, cmp);
        ghost var r := a[..];
        Sort(sorter, a, p + 1, end, cmp);
        BothHalves(s, t, r, a[..], start, p, end, cmp);
    }
  }

  lemma BothHalves<T(!new)>(s: seq<T>, t: seq<T>, r: seq<T>, q: seq<T>, start: nat, p: nat, end: nat, cmp: Comparator<T>)
    requires TotalPreorder(cmp) && PermutedWithin(s, t, start, end) && Partitioned(t, start, p, end, cmp)
    requires SortsRange(t, r, start, p, cmp) && SortsRange(r, q, p + 1, end, cmp)
    ensures SortsRange(s, q, start, end, cmp)
  {
    PartitionKept(t, r, start, p, start, p, end, cmp);
    PartitionKept(r, q, p + 1, end, start, p, end, cmp);
    SortedHalves(q, start, p, end, cmp);
    PermutedWiden(t, r, start, p, start, end);
    PermutedWiden(r, q, p + 1, end, start, end);
    PermutedTransitive(s, t, r, start, end);
    PermutedTransitive(s, r, q, start, end);
  }
}
