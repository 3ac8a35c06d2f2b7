/**
  Searching the planetary system: the loop with an explicit stack, the recursive path search, and the object
  whose commands use them.
 */
module PlanetSearch {
  import opened Options
  import opened PlanetTree

  // ---------------------------------------------------------------- search with a stack

  ghost predicate Seen(visited: set<nat>, stack: seq<nat>, c: nat) { c in visited || c in stack }

  /**
    Mid-search: stacked nodes are distinct and unvisited, a node has been met exactly when its parent has been
    visited, and no visited node has the name.
   */
  ghost predicate Searching(nodes: seq<Node>, name: string, visited: set<nat>, stack: seq<nat>) {
    && Distinct(stack)
    && (forall k :: 0 <= k < |stack| ==> stack[k] < |nodes| && stack[k] !in visited)
    && (forall i :: i in visited ==> i < |nodes| && nodes[i].name != name)
    && Seen(visited, stack, 0)
    && (forall i, c: nat :: ChildOf(nodes, i, c) ==> (Seen(visited, stack, c) <==> i in visited))
  }

  lemma SearchStep(nodes: seq<Node>, name: string, visited: set<nat>, stack: seq<nat>)
    requires Rooted(nodes) && Searching(nodes, name, visited, stack) && stack != []
    requires nodes[stack[|stack| - 1]].name != name
    ensures var top := stack[|stack| - 1];
            Searching(nodes, name, visited + {top}, stack[..|stack| - 1] + nodes[top].children)
  {
    var n := |stack| - 1;
    var top := stack[n];
    var visited', stack' := visited + {top}, stack[..n] + nodes[top].children;
    forall k | 0 <= k < |nodes[top].children|
      ensures !Seen(visited, stack, nodes[top].children[k]) && top < nodes[top].children[k] < |nodes|
    {
      assert ChildOf(nodes, top, nodes[top].children[k]);
      assert top in stack;
    }
    forall k | 0 <= k < |stack'| ensures stack'[k] < |nodes| && stack'[k] !in visited' {
      if k < n { assert stack'[k] == stack[k]; }
    }
    forall k, l | 0 <= k < l < |stack'| ensures stack'[k] != stack'[l] {
      if l < n { assert stack[k] != stack[l]; }
      else if k < n { assert stack[k] in stack; }
    }
    SeenAfter(nodes, name, visited, stack);
  }

  lemma SeenAfter(nodes: seq<Node>, name: string, visited: set<nat>, stack: seq<nat>)
    requires Rooted(nodes) && Searching(nodes, name, visited, stack) && stack != []
    ensures var top := stack[|stack| - 1];
            var visited', stack' := visited + {top}, stack[..|stack| - 1] + nodes[top].children;
            && Seen(visited', stack', 0)
            && forall i, c: nat :: ChildOf(nodes, i, c) ==> (Seen(visited', stack', c) <==> i in visited')
  {
    var n := |stack| - 1;
    var top := stack[n];
    var visited', stack' := visited + {top}, stack[..n] + nodes[top].children;
    forall c: nat ensures Seen(visited', stack', c) <==> Seen(visited, stack, c) || c in nodes[top].children {
      assert stack == stack[..n] + [top];
    }
    forall i, c: nat | ChildOf(nodes, i, c) ensures Seen(visited', stack', c) <==> i in visited' {
      if c in nodes[top].children { assert ChildOf(nodes, top, c); }
      if i == top { assert ChildOf(nodes, top, c); }
    }
  }

  lemma {:induction false} AllVisited(nodes: seq<Node>, name: string, visited: set<nat>, c: nat)
    requires Rooted(nodes) && Searching(nodes, name, visited, []) && c < |nodes|
    ensures c in visited
  {
    if c > 0 {
      assert HasParent(nodes, c);
      var i :| ChildOf(nodes, i, c);
      AllVisited(nodes, name, visited, i);
      assert Seen(visited, [], c);
    }
  }

  lemma {:induction false} VisitedBound(visited: set<nat>, n: nat)
    requires forall i :: i in visited ==> i < n
    ensures |visited| <= n
  {
    if n == 0 {
      assert visited == {};
    } else {
      VisitedBound(visited - {n - 1}, n - 1);
    }
  }

  lemma SearchStart(nodes: seq<Node>, name: string)
    requires Rooted(nodes) && nodes != []
    ensures Searching(nodes, name, {}, [0])
  {}

  /** The depth-first loop ends, and finds a node of the name exactly when there is one. */
  method FindNodeByName(nodes: seq<Node>, name: string) returns (found: Option<nat>)
    requires Rooted(nodes)
    ensures found.Some? ==> found.value < |nodes| && nodes[found.value].name == name
    ensures found.None? ==> forall i :: 0 <= i < |nodes| ==> nodes[i].name != name
  {
    if |nodes| == 0 { return None; }
    var stack := [0];
    ghost var visited: set<nat> := {};
    SearchStart(nodes, name);
    while |stack| > 0
      invariant Searching(nodes, name, visited, stack)
      decreases |nodes| - |visited|
    {
      var current := stack[|stack| - 1];
      if nodes[current].name == name { return Some(current); }
      SearchStep(nodes, name, visited, stack);
      stack := stack[..|stack| - 1] + nodes[current].children;
      visited := visited + {current};
      VisitedBound(visited, |nodes|);
    }
    assert stack == [];
    forall i | 0 <= i < |nodes| ensures nodes[i].name != name { AllVisited(nodes, name, visited, i); }
    return None;
  }

  // ---------------------------------------------------------------- paths

  /** Each node of the path is a child of the one before. */
  ghost predicate IsPath(nodes: seq<Node>, path: seq<nat>) {
    && path != [] && (forall k :: 0 <= k < |path| ==> path[k] < |nodes|)
    && forall k :: 0 <= k < |path| - 1 ==> ChildOf(nodes, path[k], path[k + 1])
  }

  /** A path from i to a node of the name. */
  ghost predicate LeadsTo(nodes: seq<Node>, path: seq<nat>, i: nat, name: string) {
    IsPath(nodes, path) && path[0] == i && nodes[path[|path| - 1]].name == name
  }

  /** The path the recursive search returns, empty when there is none. */
  function PathFrom(nodes: seq<Node>, i: nat, name: string): (path: seq<nat>)
    requires i < |nodes| && forall j, c: nat :: ChildOf(nodes, j, c) ==> j < c < |nodes|
    decreases |nodes| - i, 1, 0
  {
    if nodes[i].name == name then [i]
    else
      var below := PathAmong(nodes, i, 0, name);
      if below == [] then [] else [i] + below
  }

  /** The first non-empty path from the k-th child on. */
  function PathAmong(nodes: seq<Node>, i: nat, k: nat, name: string): (path: seq<nat>)
    requires i < |nodes| && k <= |nodes[i].children| && forall j, c: nat :: ChildOf(nodes, j, c) ==> j < c < |nodes|
    decreases |nodes| - i, 0, |nodes[i].children| - k
  {
    if k == |nodes[i].children| then []
    else
      assert ChildOf(nodes, i, nodes[i].children[k]);
      var path := PathFrom(nodes, nodes[i].children[k], name);
      if path != [] then path else PathAmong(nodes, i, k + 1, name)
  }

  lemma {:induction false} PathFromLeads(nodes: seq<Node>, i: nat, name: string)
    requires i < |nodes| && Rooted(nodes) && PathFrom(nodes, i, name) != []
    ensures LeadsTo(nodes, PathFrom(nodes, i, name), i, name)
    decreases |nodes| - i, 1, 0
  {
    if nodes[i].name != name { PathAmongLeads(nodes, i, 0, name); }
  }

  lemma {:induction false} PathAmongLeads(nodes: seq<Node>, i: nat, k: nat, name: string)
    requires i < |nodes| && k <= |nodes[i].children| && Rooted(nodes) && PathAmong(nodes, i, k, name) != []
    ensures var path := PathAmong(nodes, i, k, name);
            IsPath(nodes, path) && ChildOf(nodes, i, path[0]) && nodes[path[|path| - 1]].name == name
    decreases |nodes| - i, 0, |nodes[i].children| - k
  {
    var c := nodes[i].children[k];
    assert ChildOf(nodes, i, c);
    if PathFrom(nodes, c, name) != [] { PathFromLeads(nodes, c, name); } else { PathAmongLeads(nodes, i, k + 1, name); }
  }

  /** An empty result means no path from here leads to the name. */
  lemma {:induction false} EmptyMeansNoPath(nodes: seq<Node>, i: nat, name: string, path: seq<nat>)
    requires i < |nodes| && Rooted(nodes) && LeadsTo(nodes, path, i, name)
    ensures PathFrom(nodes, i, name) != []
    decreases |path|
  {
    if |path| > 1 {
      var c := path[1];
      assert ChildOf(nodes, path[0], path[0 + 1]);
      var rest := path[1..];
      assert IsPath(nodes, rest) by {
        forall k | 0 <= k < |rest| - 1 ensures ChildOf(nodes, rest[k], rest[k + 1]) {
          assert ChildOf(nodes, path[k + 1], path[k + 1 + 1]);
        }
      }
      EmptyMeansNoPath(nodes, c, name, rest);
      var k :| 0 <= k < |nodes[i].children| && nodes[i].children[k] == c;
      ChildPathCounts(nodes, i, 0, k, name);
    }
  }

  lemma {:induction false} ChildPathCounts(nodes: seq<Node>, i: nat, k: nat, l: nat, name: string)
    requires i < |nodes| && Rooted(nodes) && k <= l < |nodes[i].children|
    requires ChildOf(nodes, i, nodes[i].children[l]) && PathFrom(nodes, nodes[i].children[l], name) != []
    ensures PathAmong(nodes, i, k, name) != []
    decreases l - k
  {
    if k < l { ChildPathCounts(nodes, i, k + 1, l, name); }
  }

  lemma {:induction false} PathFromRoot(nodes: seq<Node>, j: nat) returns (path: seq<nat>)
    requires Rooted(nodes) && j < |nodes|
    ensures IsPath(nodes, path) && path[0] == 0 && path[|path| - 1] == j
  {
    if j == 0 {
      path := [0];
    } else {
      assert HasParent(nodes, j);
      var i :| ChildOf(nodes, i, j);
      var up := PathFromRoot(nodes, i);
      path := up + [j];
      forall k | 0 <= k < |path| - 1 ensures ChildOf(nodes, path[k], path[k + 1]) {
        if k < |up| - 1 { assert ChildOf(nodes, up[k], up[k + 1]); }
      }
    }
  }

  /** The recursive search from the root answers empty exactly when no node has the name. */
  lemma RootSearchIsComplete(nodes: seq<Node>, name: string)
    requires Rooted(nodes) && nodes != []
    ensures PathFrom(nodes, 0, name) == [] <==> forall j :: 0 <= j < |nodes| ==> nodes[j].name != name
  {
    if PathFrom(nodes, 0, name) != [] { PathFromLeads(nodes, 0, name); }
    if j: nat :| j < |nodes| && nodes[j].name == name {
      var path := PathFromRoot(nodes, j);
      EmptyMeansNoPath(nodes, 0, name, path);
    }
  }

  /** There is only one path from the root to a node. */
  lemma {:induction false} RootPathIsUnique(nodes: seq<Node>, p: seq<nat>, q: seq<nat>)
    requires Rooted(nodes) && IsPath(nodes, p) && IsPath(nodes, q) && p[0] == 0 && q[0] == 0
    requires p[|p| - 1] == q[|q| - 1]
    ensures p == q
    decreases |p|
  {
    if |p| > 1 { LastStep(nodes, p); }
    if |q| > 1 { LastStep(nodes, q); }
    if |p| > 1 && |q| > 1 {
      RootPathIsUnique(nodes, p[..|p| - 1], q[..|q| - 1]);
      assert p == p[..|p| - 1] + [p[|p| - 1]] && q == q[..|q| - 1] + [q[|q| - 1]];
    }
  }

  lemma LastStep(nodes: seq<Node>, p: seq<nat>)
    requires Rooted(nodes) && IsPath(nodes, p) && |p| > 1
    ensures IsPath(nodes, p[..|p| - 1]) && ChildOf(nodes, p[|p| - 2], p[|p| - 1]) && p[|p| - 1] > 0
  {}

  /** The recursion that keeps the current path on a stack: pushed on entry, popped on failure. */
  method FindPath(nodes: seq<Node>, current: nat, target: string, path: seq<nat>) returns (found: bool, path': seq<nat>)
    requires current < |nodes| && Rooted(nodes)
    ensures found <==> PathFrom(nodes, current, target) != []
    ensures path' == path + PathFrom(nodes, current, target)
    decreases |nodes| - current
  {
    var pushed := path + [current];
    if nodes[current].name == target { return true, pushed; }
    for k := 0 to |nodes[current].children|
      invariant PathAmong(nodes, current, 0, target) == PathAmong(nodes, current, k, target)
    {
      var child := nodes[current].children[k];
      assert ChildOf(nodes, current, child);
      var below, extended := FindPath(nodes, child, target, pushed);
      if below {
        assert extended == path + ([current] + PathFrom(nodes, child, target));
        return true, extended;
      }
    }
    return false, path;
  }

  function KindName(k: Kind): string {
    match k case Star => "Star" case Planet => "Planet" case Satellite => "Satellite"
  }

  function Label(n: Node): string { KindName(n.kind) + " " + n.name }

  lemma LabelsAsPrinted(n: Node)
    ensures n.kind == Star ==> Label(n) == "Star " + n.name
    ensures n.kind == Planet ==> Label(n) == "Planet " + n.name
    ensures n.kind == Satellite ==> Label(n) == "Satellite " + n.name
  {}

  lemma NamedIsUnique(nodes: seq<Node>, name: string, i: nat)
    requires UniqueNames(nodes) && i < |nodes| && nodes[i].name == name
    ensures NodeNamed(nodes, name) == i
  {}

  method LabelsOf(nodes: seq<Node>, stack: seq<nat>) returns (labels: seq<string>)
    requires forall k :: 0 <= k < |stack| ==> stack[k] < |nodes|
    ensures |labels| == |stack| && forall k :: 0 <= k < |stack| ==> labels[k] == Label(nodes[stack[k]])
  {
    labels := [];
    for k := 0 to |stack|
      invariant |labels| == k && forall l :: 0 <= l < k ==> labels[l] == Label(nodes[stack[l]])
    {
      labels := labels + [Label(nodes[stack[k]])];
    }
  }

  class PlanetSystem {
    var nodes: seq<Node>
    var starFlag: bool

    ghost function State(): System
      reads this
    {
      System(nodes, starFlag)
    }

    constructor ()
      ensures State() == System([], false) && Inv(State())
    {
      nodes, starFlag := [], false;
    }

    method Find(name: string) returns (i: nat)
      requires Inv(State())
      ensures i == NodeNamed(nodes, name)
    {
      var found := FindNodeByName(nodes, name);
      if found.None? { return |nodes|; }
      NamedIsUnique(nodes, name, found.value);
      return found.value;
    }

    method CreatePlanetSystem(name: string, s: Sensors) returns (reply: Reply)
      requires Inv(State())
      modifies this
      ensures Inv(State()) && (reply, State()) == CreateSystem(old(State()), name, s)
    {
      CreateKeepsInv(State(), name, s);
      if nodes != [] { return AlreadyCreated; }
      if Negative(s) { return NegativeSensor; }
      if s.humidity > 0.0 { return StarHumidity; }
      nodes := [Node(name, Star, s, false, [])];
      return Created;
    }

    method NewPlanetUnder(name: string, parentName: string, s: Sensors) returns (reply: Reply)
      requires Inv(State())
      modifies this
      ensures Inv(State()) && (reply, State()) == AddPlanet(old(State()), name, parentName, s)
    {
      AddPlanetKeepsInv(State(), name, parentName, s);
      if nodes == [] { return NotCreated; }
      if Negative(s) { return NegativeSensor; }
      var planet := Find(name);
      var parent := Find(parentName);
      if parent == |nodes| { return ParentNotFound; }
      if nodes[parent].kind == Satellite { return SatelliteParent; }
      if planet < |nodes| { return NameTaken; }
      if nodes[parent].kind == Star && starFlag { return StarTaken; }
      if nodes[parent].planetFlag { return PlanetTaken; }
      nodes := Attach(nodes, parent, Node(name, Planet, s, false, []));
      if nodes[parent].kind == Star {
        starFlag := true;
      } else {
        nodes := nodes[parent := nodes[parent].(planetFlag := true)];
      }
      return Added;
    }

    method NewSatelliteUnder(name: string, parentName: string, s: Sensors) returns (reply: Reply)
      requires Inv(State())
      modifies this
      ensures Inv(State()) && (reply, State()) == AddSatellite(old(State()), name, parentName, s)
    {
      AddSatelliteKeepsInv(State(), name, parentName, s);
      if nodes == [] { return NotCreated; }
      if Negative(s) { return NegativeSensor; }
      var satellite := Find(name);
      var parent := Find(parentName);
      if parent == |nodes| { return ParentNotFound; }
      if nodes[parent].kind == Satellite { return SatelliteParent; }
      if nodes[parent].kind == Star { return StarParent; }
      if satellite < |nodes| { return NameTaken; }
      nodes := Attach(nodes, parent, Node(name, Satellite, s, false, []));
      return Added;
    }

    /** The labels along the one path from the star to the named node; empty if there is no such node. */
    method GetPathTo(name: string) returns (labels: Option<seq<string>>, ghost path: seq<nat>)
      requires Inv(State())
      ensures labels.None? <==> nodes == []
      ensures labels.Some? ==> |labels.value| == |path|
      ensures labels.Some? && path == [] ==> forall j :: 0 <= j < |nodes| ==> nodes[j].name != name
      ensures labels.Some? && path != [] ==> LeadsTo(nodes, path, 0, name)
      ensures labels.Some? && path != [] ==>
                forall k :: 0 <= k < |path| ==> labels.value[k] == Label(nodes[path[k]])
    {
      path := [];
      if nodes == [] { return None, []; }
      RootSearchIsComplete(nodes, name);
      var found, stack := FindPath(nodes, 0, name, []);
      assert stack == PathFrom(nodes, 0, name);
      if found { PathFromLeads(nodes, 0, name); }
      var strings := LabelsOf(nodes, stack);
      return Some(strings), stack;
    }
  }
}
