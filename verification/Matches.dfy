/**
  Counting the occurrences of a search term in a line, overlapping ones included, the way the worker
  threads do it: search, then search again one character further.
 */
module Matches {
  import opened Options

  predicate MatchAt(line: string, term: string, at: nat) {
    at + |term| <= |line| && line[at..at + |term|] == term
  }

  /** The places at which the term occurs. */
  ghost function Places(line: string, term: string): set<nat> {
    set at: nat | at <= |line| && MatchAt(line, term, at)
  }

  ghost function Occurrences(line: string, term: string): nat {
    |Places(line, term)|
  }

  ghost function TotalOccurrences(lines: seq<string>, term: string): nat {
    if lines == [] then 0 else TotalOccurrences(lines[..|lines| - 1], term) + Occurrences(lines[|lines| - 1], term)
  }

  lemma TotalSnoc(lines: seq<string>, line: string, term: string)
    ensures TotalOccurrences(lines + [line], term) == TotalOccurrences(lines, term) + Occurrences(line, term)
  {}

  /** The library search from a position: the first match at or after it, or -1. */
  method Search(line: string, term: string, from: nat) returns (at: int)
    requires from <= |line|
    ensures at == -1 || (from <= at <= |line| && MatchAt(line, term, at))
    ensures forall q: nat :: from <= q && (at == -1 || q < at) ==> !MatchAt(line, term, q)
  {
    at := from;
    while at + |term| <= |line|
      invariant from <= at <= |line| + 1
      invariant forall q: nat :: from <= q < at ==> !MatchAt(line, term, q)
    {
      if line[at..at + |term|] == term { return; }
      at := at + 1;
    }
    return -1;
  }

  /** An empty term occurs in every line, at every place. */
  lemma EmptyTermOccurs(line: string)
    ensures Occurrences(line, []) > 0
  {
    assert 0 in Places(line, []);
  }

  lemma {:induction false} EmptyTermTotal(lines: seq<string>)
    ensures TotalOccurrences(lines, []) >= |lines|
  {
    if lines != [] {
      EmptyTermTotal(lines[..|lines| - 1]);
      EmptyTermOccurs(lines[|lines| - 1]);
    }
  }

  /**
    The worker's loop counts every place exactly once. An empty term is found at the end of the line too, and
    from there the loop walks out of the line: it has no count.
   */
  method CountMatches(line: string, term: string) returns (r: Option<nat>)
    ensures r == if term == [] then None else Some(Occurrences(line, term))
  {
    var count := 0;
    ghost var seen: set<nat> := {};
    var found := Search(line, term, 0);
    assert term == [] ==> MatchAt(line, term, 0);
    while found != -1
      invariant found == -1 ==> term != []
      invariant found == -1 || (0 <= found <= |line| && MatchAt(line, term, found))
      invariant count == |seen|
      invariant seen == set at: nat | at <= |line| && MatchAt(line, term, at) && (found == -1 || at < found)
      decreases if found == -1 then 0 else |line| - found + 1
    {
      count := count + 1;
      seen := seen + {found};
      if found == |line| { return None; }
      assert term == [] ==> MatchAt(line, term, found + 1);
      found := Search(line, term, found + 1);
    }
    assert seen == Places(line, term);
    return Some(count);
  }
}
