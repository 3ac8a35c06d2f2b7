/**
  What every command of the planetary system answers and does, stated on the tree: each reply if and only if,
  and the exact change of every node.
 */
module PlanetReplies {
  import opened Options
  import opened PlanetTree

  predicate IsCalled(sys: System, i: nat, name: string) { i < |sys.nodes| && sys.nodes[i].name == name }

  predicate Exists(sys: System, name: string) { exists i: nat :: i < |sys.nodes| && IsCalled(sys, i, name) }

  predicate IsA(sys: System, name: string, kind: Kind) {
    exists i: nat :: i < |sys.nodes| && IsCalled(sys, i, name) && sys.nodes[i].kind == kind
  }

  /** The node of that name has a planet among its children. */
  ghost predicate HasPlanet(sys: System, name: string) {
    exists i: nat :: i < |sys.nodes| && IsCalled(sys, i, name) && HasPlanetBelow(sys.nodes, i)
  }

  /** The system exists and no reading is below zero. */
  predicate Sensible(sys: System, s: Sensors) {
    sys.nodes != [] && s.temperature >= 0.0 && s.pressure >= 0.0 && s.humidity >= 0.0 && s.radiation >= 0.0
  }

  lemma TheNode(sys: System, name: string, i: nat)
    requires Inv(sys)
    ensures IsCalled(sys, i, name) <==> i < |sys.nodes| && i == NodeNamed(sys.nodes, name)
  {}

  /** The node of the name, its kind and its flag. */
  lemma TheNodeIs(sys: System, name: string)
    requires Inv(sys)
    ensures var p := NodeNamed(sys.nodes, name);
            && (Exists(sys, name) <==> p < |sys.nodes|)
            && (p < |sys.nodes| ==>
                  && (forall kind :: IsA(sys, name, kind) <==> sys.nodes[p].kind == kind)
                  && (HasPlanet(sys, name) <==> if sys.nodes[p].kind == Star then sys.starFlag else sys.nodes[p].planetFlag))
            && (p == |sys.nodes| ==> forall kind :: !IsA(sys, name, kind))
  {
    var p := NodeNamed(sys.nodes, name);
    forall i: nat ensures IsCalled(sys, i, name) <==> i < |sys.nodes| && i == p { TheNode(sys, name, i); }
    if p < |sys.nodes| {
      assert IsCalled(sys, p, name);
      assert HasPlanetBelow(sys.nodes, p) <==> FlagOf(sys, p);
    }
  }

  /** Every reply to a new planet, if and only if. */
  lemma PlanetRepliesExactly(sys: System, name: string, parent: string, s: Sensors)
    requires Inv(sys)
    ensures var reply := Obey(sys, NewPlanet(name, parent, s)).0;
            var free := (IsA(sys, parent, Star) || IsA(sys, parent, Planet)) && !Exists(sys, name);
            && (reply == NotCreated <==> sys.nodes == [])
            && (reply == NegativeSensor <==> sys.nodes != [] && !Sensible(sys, s))
            && (reply == ParentNotFound <==> Sensible(sys, s) && !Exists(sys, parent))
            && (reply == SatelliteParent <==> Sensible(sys, s) && IsA(sys, parent, Satellite))
            && (reply == NameTaken <==>
                  Sensible(sys, s) && (IsA(sys, parent, Star) || IsA(sys, parent, Planet)) && Exists(sys, name))
            && (reply == StarTaken <==> Sensible(sys, s) && free && IsA(sys, parent, Star) && HasPlanet(sys, parent))
            && (reply == PlanetTaken <==> Sensible(sys, s) && free && IsA(sys, parent, Planet) && HasPlanet(sys, parent))
            && (reply == Added <==> Sensible(sys, s) && free && !HasPlanet(sys, parent))
  {
    TheNodeIs(sys, parent);
    TheNodeIs(sys, name);
    if sys.nodes != [] { assert sys.nodes[0].kind == Star; }
  }

  /** Every reply to a new satellite, if and only if. */
  lemma SatelliteRepliesExactly(sys: System, name: string, parent: string, s: Sensors)
    requires Inv(sys)
    ensures var reply := Obey(sys, NewSatellite(name, parent, s)).0;
            && (reply == NotCreated <==> sys.nodes == [])
            && (reply == NegativeSensor <==> sys.nodes != [] && !Sensible(sys, s))
            && (reply == ParentNotFound <==> Sensible(sys, s) && !Exists(sys, parent))
            && (reply == SatelliteParent <==> Sensible(sys, s) && IsA(sys, parent, Satellite))
            && (reply == StarParent <==> Sensible(sys, s) && IsA(sys, parent, Star))
            && (reply == NameTaken <==> Sensible(sys, s) && IsA(sys, parent, Planet) && Exists(sys, name))
            && (reply == Added <==> Sensible(sys, s) && IsA(sys, parent, Planet) && !Exists(sys, name))
  {
    TheNodeIs(sys, parent);
    TheNodeIs(sys, name);
  }

  /** Every reply to the creation of the system, if and only if. */
  lemma CreateRepliesExactly(sys: System, name: string, s: Sensors)
    ensures var (reply, sys') := Obey(sys, Create(name, s));
            var negative := s.temperature < 0.0 || s.pressure < 0.0 || s.humidity < 0.0 || s.radiation < 0.0;
            && (reply == AlreadyCreated <==> sys.nodes != [])
            && (reply == NegativeSensor <==> sys.nodes == [] && negative)
            && (reply == StarHumidity <==> sys.nodes == [] && !negative && s.humidity > 0.0)
            && (reply == Created <==> sys.nodes == [] && !negative && s.humidity == 0.0)
            && (reply != Created ==> sys' == sys)
            && (reply == Created ==> sys'.nodes == [Node(name, Star, s, false, [])])
  {}

  /** The new node comes last, with its sensors and no children, as the last child of its parent; the rest is kept. */
  ghost predicate Grown(sys: System, sys': System, name: string, parent: string, kind: Kind, s: Sensors) {
    var n := |sys.nodes|;
    && |sys'.nodes| == n + 1 && sys'.nodes[n] == Node(name, kind, s, false, [])
    && forall i: nat :: i < n ==>
         && sys'.nodes[i].name == sys.nodes[i].name && sys'.nodes[i].kind == sys.nodes[i].kind
         && sys'.nodes[i].sensors == sys.nodes[i].sensors
         && sys'.nodes[i].children == sys.nodes[i].children + if IsCalled(sys, i, parent) then [n] else []
  }

  /** A command refused changes nothing; one accepted adds exactly the node asked for. */
  lemma AddEffect(sys: System, name: string, parent: string, s: Sensors)
    requires Inv(sys)
    ensures var (reply, sys') := Obey(sys, NewPlanet(name, parent, s));
            if reply == Added then Grown(sys, sys', name, parent, Planet, s) else sys' == sys
    ensures var (reply, sys') := Obey(sys, NewSatellite(name, parent, s));
            if reply == Added then Grown(sys, sys', name, parent, Satellite, s) && sys'.starFlag == sys.starFlag
            else sys' == sys
  {
    forall i: nat ensures IsCalled(sys, i, parent) <==> i < |sys.nodes| && i == NodeNamed(sys.nodes, parent) {
      TheNode(sys, parent, i);
    }
  }
}
