/**
  The planetary system: a tree of named nodes built by commands. Nodes live in a table in creation order and
  refer to their children by position, so a position stands for an object reference.
 */
module PlanetTree {
  import opened Options

  datatype Kind = Star | Planet | Satellite
  datatype Sensors = Sensors(temperature: real, pressure: real, humidity: real, radiation: real)
  datatype Node = Node(name: string, kind: Kind, sensors: Sensors, planetFlag: bool, children: seq<nat>)
  datatype System = System(nodes: seq<Node>, starFlag: bool)

  datatype Reply =
    | AlreadyCreated | NegativeSensor | StarHumidity | Created
    | NotCreated | ParentNotFound | SatelliteParent | StarParent | StarTaken | PlanetTaken | NameTaken | Added

  predicate Negative(s: Sensors) {
    s.temperature < 0.0 || s.pressure < 0.0 || s.humidity < 0.0 || s.radiation < 0.0
  }

  /** The node of that name, or the number of nodes. */
  ghost function NodeNamed(nodes: seq<Node>, name: string): (i: nat)
    ensures i <= |nodes| && (i < |nodes| ==> nodes[i].name == name)
    ensures i == |nodes| ==> forall j :: 0 <= j < |nodes| ==> nodes[j].name != name
  {
    if nodes == [] then 0
    else if exists j: nat :: j < |nodes| && nodes[j].name == name then var j: nat :| j < |nodes| && nodes[j].name == name; j
    else |nodes|
  }

  // ---------------------------------------------------------------- commands

  function Attach(nodes: seq<Node>, parent: nat, child: Node): (r: seq<Node>)
    requires parent < |nodes|
    ensures |r| == |nodes| + 1
  {
    nodes[parent := nodes[parent].(children := nodes[parent].children + [|nodes|])] + [child]
  }

  ghost function CreateSystem(sys: System, name: string, s: Sensors): (Reply, System) {
    if sys.nodes != [] then (AlreadyCreated, sys)
    else if Negative(s) then (NegativeSensor, sys)
    else if s.humidity > 0.0 then (StarHumidity, sys)
    else (Created, System([Node(name, Star, s, false, [])], sys.starFlag))
  }

  ghost function AddPlanet(sys: System, name: string, parentName: string, s: Sensors): (Reply, System) {
    if sys.nodes == [] then (NotCreated, sys)
    else if Negative(s) then (NegativeSensor, sys)
    else
      var nodes := sys.nodes;
      var p := NodeNamed(nodes, parentName);
      if p == |nodes| then (ParentNotFound, sys)
      else if nodes[p].kind == Satellite then (SatelliteParent, sys)
      else if NodeNamed(nodes, name) < |nodes| then (NameTaken, sys)
      else if nodes[p].kind == Star && sys.starFlag then (StarTaken, sys)
      else if nodes[p].planetFlag then (PlanetTaken, sys)
      else
        var attached := Attach(nodes, p, Node(name, Planet, s, false, []));
        if nodes[p].kind == Star then (Added, System(attached, true))
        else (Added, System(attached[p := attached[p].(planetFlag := true)], sys.starFlag))
  }

  ghost function AddSatellite(sys: System, name: string, parentName: string, s: Sensors): (Reply, System) {
    if sys.nodes == [] then (NotCreated, sys)
    else if Negative(s) then (NegativeSensor, sys)
    else
      var nodes := sys.nodes;
      var p := NodeNamed(nodes, parentName);
      if p == |nodes| then (ParentNotFound, sys)
      else if nodes[p].kind == Satellite then (SatelliteParent, sys)
      else if nodes[p].kind == Star then (StarParent, sys)
      else if NodeNamed(nodes, name) < |nodes| then (NameTaken, sys)
      else (Added, sys.(nodes := Attach(nodes, p, Node(name, Satellite, s, false, []))))
  }

  // ---------------------------------------------------------------- what every command keeps

  /** c is a child of i. */
  predicate ChildOf(nodes: seq<Node>, i: int, c: nat) { 0 <= i < |nodes| && c in nodes[i].children }

  /** A tree rooted at node 0: children come later, each node but the root has one parent and one place there. */
  ghost predicate Rooted(nodes: seq<Node>) {
    && (forall i, c: nat :: ChildOf(nodes, i, c) ==> i < c < |nodes|)
    && (forall i, j, c: nat :: ChildOf(nodes, i, c) && ChildOf(nodes, j, c) ==> i == j)
    && (forall c: nat :: 0 < c < |nodes| ==> HasParent(nodes, c))
    && (forall i :: 0 <= i < |nodes| ==> Distinct(nodes[i].children))
  }

  ghost predicate HasParent(nodes: seq<Node>, c: nat) { exists i :: ChildOf(nodes, i, c) }

  ghost predicate Distinct(s: seq<nat>) { forall k, l :: 0 <= k < l < |s| ==> s[k] != s[l] }

  ghost predicate UniqueNames(nodes: seq<Node>) {
    forall i, j :: 0 <= i < j < |nodes| ==> nodes[i].name != nodes[j].name
  }

  predicate PlanetBelow(nodes: seq<Node>, i: int, c: nat) {
    ChildOf(nodes, i, c) && c < |nodes| && nodes[c].kind == Planet
  }

  ghost predicate HasPlanetBelow(nodes: seq<Node>, i: int) { exists c: nat :: PlanetBelow(nodes, i, c) }

  /** The star is the root and satellites are leaves under planets. */
  ghost predicate Layered(nodes: seq<Node>) {
    && (forall i :: 0 <= i < |nodes| ==> (nodes[i].kind == Star <==> i == 0))
    && (forall i :: 0 <= i < |nodes| && nodes[i].kind == Satellite ==> nodes[i].children == [])
    && (forall i, c: nat :: ChildOf(nodes, i, c) && c < |nodes| && nodes[c].kind == Satellite ==> nodes[i].kind == Planet)
  }

  ghost predicate FlagOf(sys: System, i: int)
    requires 0 <= i < |sys.nodes|
  {
    if i == 0 then sys.starFlag else sys.nodes[i].planetFlag
  }

  /** Below each star or planet hangs at most one planet, and the flags say whether one does. */
  ghost predicate Chained(sys: System) {
    && (forall i, c: nat, d: nat :: PlanetBelow(sys.nodes, i, c) && PlanetBelow(sys.nodes, i, d) ==> c == d)
    && (forall i {:trigger HasPlanetBelow(sys.nodes, i)} {:trigger FlagOf(sys, i)} ::
          0 <= i < |sys.nodes| ==> (HasPlanetBelow(sys.nodes, i) <==> FlagOf(sys, i)))
    && (if sys.nodes == [] then !sys.starFlag else !sys.nodes[0].planetFlag)
  }

  ghost predicate Inv(sys: System) {
    Rooted(sys.nodes) && UniqueNames(sys.nodes) && Layered(sys.nodes) && Chained(sys)
  }

  lemma AttachChildren(nodes: seq<Node>, p: nat, child: Node, i: int, c: nat)
    requires p < |nodes| && child.children == []
    ensures ChildOf(Attach(nodes, p, child), i, c) <==> ChildOf(nodes, i, c) || (i == p && c == |nodes|)
  {}

  lemma AttachKeepsRooted(nodes: seq<Node>, p: nat, child: Node)
    requires Rooted(nodes) && p < |nodes| && child.children == []
    ensures Rooted(Attach(nodes, p, child))
  {
    var r := Attach(nodes, p, child);
    forall i, c: nat ensures ChildOf(r, i, c) <==> ChildOf(nodes, i, c) || (i == p && c == |nodes|) {
      AttachChildren(nodes, p, child, i, c);
    }
    forall c: nat | 0 < c < |r| ensures HasParent(r, c) {
      if c < |nodes| {
        assert HasParent(nodes, c);
        var i :| ChildOf(nodes, i, c);
        assert ChildOf(r, i, c);
      } else {
        assert ChildOf(r, p, c);
      }
    }
    assert Distinct(r[p].children) by {
      forall k | 0 <= k < |nodes[p].children| ensures nodes[p].children[k] != |nodes| {
        assert ChildOf(nodes, p, nodes[p].children[k]);
      }
    }
  }

  lemma AttachKeepsNames(nodes: seq<Node>, p: nat, child: Node)
    requires UniqueNames(nodes) && p < |nodes| && forall j :: 0 <= j < |nodes| ==> nodes[j].name != child.name
    ensures UniqueNames(Attach(nodes, p, child))
  {}

  lemma AttachKeepsLayered(nodes: seq<Node>, p: nat, child: Node)
    requires Rooted(nodes) && Layered(nodes) && p < |nodes| && child.children == []
    requires (child.kind == Planet && nodes[p].kind != Satellite) || (child.kind == Satellite && nodes[p].kind == Planet)
    ensures Layered(Attach(nodes, p, child))
  {
    var r := Attach(nodes, p, child);
    forall i, c: nat | ChildOf(r, i, c) && c < |r| && r[c].kind == Satellite ensures r[i].kind == Planet {
      AttachChildren(nodes, p, child, i, c);
    }
  }

  /** Flags of nodes do not matter to the shape. */
  lemma FlagKeepsShape(nodes: seq<Node>, p: nat)
    requires p < |nodes| && Rooted(nodes) && UniqueNames(nodes) && Layered(nodes)
    ensures var r := nodes[p := nodes[p].(planetFlag := true)];
            && Rooted(r) && UniqueNames(r) && Layered(r)
            && (forall i, c: nat :: PlanetBelow(r, i, c) <==> PlanetBelow(nodes, i, c))
  {
    var r := nodes[p := nodes[p].(planetFlag := true)];
    assert forall i, c: nat :: ChildOf(r, i, c) <==> ChildOf(nodes, i, c);
    forall c: nat | 0 < c < |r| ensures HasParent(r, c) {
      assert HasParent(nodes, c);
      var i :| ChildOf(nodes, i, c);
      assert ChildOf(r, i, c);
    }
  }

  lemma PlanetsAfterAttach(nodes: seq<Node>, p: nat, child: Node, i: int, c: nat)
    requires Rooted(nodes) && p < |nodes| && child.children == []
    ensures PlanetBelow(Attach(nodes, p, child), i, c)
       <==> PlanetBelow(nodes, i, c) || (i == p && c == |nodes| && child.kind == Planet)
  {
    AttachChildren(nodes, p, child, i, c);
  }

  /** Attaching a satellite changes no flag and no planet. */
  lemma SatelliteKeepsChained(sys: System, p: nat, child: Node)
    requires Inv(sys) && p < |sys.nodes| && child.children == [] && child.kind == Satellite && !child.planetFlag
    ensures Chained(sys.(nodes := Attach(sys.nodes, p, child)))
  {
    var sys' := sys.(nodes := Attach(sys.nodes, p, child));
    forall i, c: nat ensures PlanetBelow(sys'.nodes, i, c) <==> PlanetBelow(sys.nodes, i, c) {
      PlanetsAfterAttach(sys.nodes, p, child, i, c);
    }
    forall i | 0 <= i < |sys'.nodes| ensures HasPlanetBelow(sys'.nodes, i) <==> FlagOf(sys', i) {
      if HasPlanetBelow(sys'.nodes, i) {
        var c: nat :| PlanetBelow(sys'.nodes, i, c);
        assert PlanetBelow(sys.nodes, i, c);
      }
      if i < |sys.nodes| && HasPlanetBelow(sys.nodes, i) {
        var c: nat :| PlanetBelow(sys.nodes, i, c);
        assert PlanetBelow(sys'.nodes, i, c);
      }
      if i < |sys.nodes| { assert FlagOf(sys, i) <==> FlagOf(sys', i); }
    }
  }

  /** Attaching a planet where there was none raises exactly the flag of its parent. */
  lemma PlanetKeepsChained(sys: System, p: nat, child: Node, sys': System)
    requires Inv(sys) && p < |sys.nodes| && child.children == [] && child.kind == Planet && !child.planetFlag
    requires !FlagOf(sys, p)
    requires forall i, c: nat :: PlanetBelow(sys'.nodes, i, c) <==> PlanetBelow(sys.nodes, i, c) || (i == p && c == |sys.nodes|)
    requires |sys'.nodes| == |sys.nodes| + 1 && !sys'.nodes[0].planetFlag
    requires forall i :: 0 <= i < |sys.nodes| ==> (FlagOf(sys', i) <==> FlagOf(sys, i) || i == p)
    requires !FlagOf(sys', |sys.nodes|)
    ensures Chained(sys')
  {
    assert !HasPlanetBelow(sys.nodes, p);
    forall i | 0 <= i < |sys'.nodes| ensures HasPlanetBelow(sys'.nodes, i) <==> FlagOf(sys', i) {
      if HasPlanetBelow(sys'.nodes, i) {
        var c: nat :| PlanetBelow(sys'.nodes, i, c);
        assert i == p || HasPlanetBelow(sys.nodes, i);
      }
      if i == p { assert PlanetBelow(sys'.nodes, i, |sys.nodes|); }
      if i < |sys.nodes| && HasPlanetBelow(sys.nodes, i) {
        var c: nat :| PlanetBelow(sys.nodes, i, c);
        assert PlanetBelow(sys'.nodes, i, c);
      }
    }
    forall i, c: nat, d: nat | PlanetBelow(sys'.nodes, i, c) && PlanetBelow(sys'.nodes, i, d) ensures c == d {
      assert i == p ==> !PlanetBelow(sys.nodes, i, c) && !PlanetBelow(sys.nodes, i, d);
    }
  }

  lemma CreateKeepsInv(sys: System, name: string, s: Sensors)
    requires Inv(sys)
    ensures Inv(CreateSystem(sys, name, s).1)
  {}

  lemma AddPlanetKeepsInv(sys: System, name: string, parentName: string, s: Sensors)
    requires Inv(sys)
    ensures Inv(AddPlanet(sys, name, parentName, s).1)
  {
    var (reply, sys') := AddPlanet(sys, name, parentName, s);
    if reply == Added {
      var p := NodeNamed(sys.nodes, parentName);
      var child := Node(name, Planet, s, false, []);
      var attached := Attach(sys.nodes, p, child);
      AttachKeepsRooted(sys.nodes, p, child);
      AttachKeepsNames(sys.nodes, p, child);
      AttachKeepsLayered(sys.nodes, p, child);
      FlagKeepsShape(attached, p);
      forall i, c: nat
        ensures PlanetBelow(sys'.nodes, i, c) <==> PlanetBelow(sys.nodes, i, c) || (i == p && c == |sys.nodes|)
      {
        PlanetsAfterAttach(sys.nodes, p, child, i, c);
      }
      PlanetKeepsChained(sys, p, child, sys');
    }
  }

  lemma AddSatelliteKeepsInv(sys: System, name: string, parentName: string, s: Sensors)
    requires Inv(sys)
    ensures Inv(AddSatellite(sys, name, parentName, s).1)
  {
    var (reply, sys') := AddSatellite(sys, name, parentName, s);
    if reply == Added {
      var p := NodeNamed(sys.nodes, parentName);
      var child := Node(name, Satellite, s, false, []);
      AttachKeepsRooted(sys.nodes, p, child);
      AttachKeepsNames(sys.nodes, p, child);
      AttachKeepsLayered(sys.nodes, p, child);
      SatelliteKeepsChained(sys, p, child);
    }
  }

  /** An accepted planet or satellite is a new leaf of that name directly under the node of the parent name. */
  lemma AddedUnderParent(sys: System, name: string, parentName: string, s: Sensors)
    requires Inv(sys)
    ensures var (reply, sys') := AddPlanet(sys, name, parentName, s);
            reply == Added ==> IsNewLeaf(sys, sys', name, parentName, Planet)
    ensures var (reply, sys') := AddSatellite(sys, name, parentName, s);
            reply == Added ==> IsNewLeaf(sys, sys', name, parentName, Satellite)
  {
    var p := NodeNamed(sys.nodes, parentName);
    if AddPlanet(sys, name, parentName, s).0 == Added {
      assert ChildOf(AddPlanet(sys, name, parentName, s).1.nodes, p, |sys.nodes|);
    }
    if AddSatellite(sys, name, parentName, s).0 == Added {
      assert ChildOf(AddSatellite(sys, name, parentName, s).1.nodes, p, |sys.nodes|);
    }
  }

  ghost predicate IsNewLeaf(sys: System, sys': System, name: string, parentName: string, kind: Kind) {
    var n := |sys.nodes|;
    && |sys'.nodes| == n + 1
    && sys'.nodes[n].name == name && sys'.nodes[n].kind == kind && sys'.nodes[n].children == []
    && (exists p :: ChildOf(sys'.nodes, p, n) && p < n && sys'.nodes[p].name == parentName)
    && forall i :: 0 <= i < n ==> sys'.nodes[i].name == sys.nodes[i].name && sys'.nodes[i].kind == sys.nodes[i].kind
  }

  // ---------------------------------------------------------------- every sequence of commands

  datatype Command =
    | Create(name: string, sensors: Sensors)
    | NewPlanet(name: string, parent: string, sensors: Sensors)
    | NewSatellite(name: string, parent: string, sensors: Sensors)

  ghost function Obey(sys: System, cmd: Command): (Reply, System) {
    match cmd
    case Create(name, s) => CreateSystem(sys, name, s)
    case NewPlanet(name, parent, s) => AddPlanet(sys, name, parent, s)
    case NewSatellite(name, parent, s) => AddSatellite(sys, name, parent, s)
  }

  ghost function After(cmds: seq<Command>): System {
    if cmds == [] then System([], false) else Obey(After(cmds[..|cmds| - 1]), cmds[|cmds| - 1]).1
  }

  /** Any sequence of commands builds a tree with unique names, one chain of planets, and satellites as leaves. */
  lemma {:induction false} EveryCommandSequence(cmds: seq<Command>)
    ensures Inv(After(cmds))
  {
    if cmds != [] {
      EveryCommandSequence(cmds[..|cmds| - 1]);
      var sys := After(cmds[..|cmds| - 1]);
      match cmds[|cmds| - 1] {
        case Create(name, s) => CreateKeepsInv(sys, name, s);
        case NewPlanet(name, parent, s) => AddPlanetKeepsInv(sys, name, parent, s);
        case NewSatellite(name, parent, s) => AddSatelliteKeepsInv(sys, name, parent, s);
      }
    }
  }
}
