/**
  The robot simulation: five kinds of robots on a ten by ten grid that move at random and fight whoever they
  run into. Robots live in a table; the grid maps occupied cells to positions in it. Random numbers are
  arguments or arbitrary choices.
 */
module RobotGrid {
  import opened Options
  import opened Sets

  const GSIZE := 10
  const ROBOTS := 5

  datatype Kind = OptimusPrime | Robocop | Roomba | Bulldozer | Kamikaze

  datatype Robot = Robot(kind: Kind, strength: int, hitpoints: int, x: int, y: int, moved: bool)

  type Cell = (int, int)

  predicate OnBoard(c: Cell) { 0 <= c.0 < GSIZE && 0 <= c.1 < GSIZE }

  function CellOf(r: Robot): Cell { (r.x, r.y) }

  /** A damage the robot can deal: what its random draws allow. */
  ghost predicate PossibleDamage(r: Robot, d: int) {
    match r.kind
    case Kamikaze => d == r.hitpoints
    case Bulldozer => 1 <= d <= r.strength
    case Roomba => 2 <= d <= 2 * r.strength
    case Robocop => 1 <= d <= r.strength || 51 <= d <= r.strength + 50
    case OptimusPrime =>
      || 1 <= d <= r.strength || 51 <= d <= r.strength + 50
      || (d % 2 == 0 && (1 <= d / 2 <= r.strength || 51 <= d / 2 <= r.strength + 50))
  }

  /** Any draw of random numbers gives a possible damage. */
  method GetDamage(r: Robot, draw1: nat, draw2: nat, bonus: bool, double: bool) returns (d: int)
    requires r.strength > 0
    ensures PossibleDamage(r, d)
    ensures r.kind != Kamikaze ==> d >= 1
  {
    d := draw1 % r.strength + 1;
    match r.kind {
      case Kamikaze => d := r.hitpoints;
      case Bulldozer =>
      case Roomba => d := d + (draw2 % r.strength + 1);
      case Robocop => if bonus { d := d + 50; }
      case OptimusPrime =>
        if bonus { d := d + 50; }
        if double { d := d * 2; }
    }
  }

  /** Five robots of each kind are placed, in this order. */
  function KindAt(n: nat): Kind {
    if n < ROBOTS then OptimusPrime
    else if n < 2 * ROBOTS then Robocop
    else if n < 3 * ROBOTS then Roomba
    else if n < 4 * ROBOTS then Bulldozer
    else Kamikaze
  }

  function StrengthOf(kind: Kind): (s: int)
    ensures s > 0
  {
    match kind case OptimusPrime => 100 case Robocop => 30 case Roomba => 3 case Bulldozer => 50 case Kamikaze => 10
  }

  function HitpointsOf(kind: Kind): int {
    match kind case OptimusPrime => 100 case Robocop => 40 case Roomba => 10 case Bulldozer => 200 case Kamikaze => 10
  }

  function Newcomer(kind: Kind, c: Cell): Robot {
    Robot(kind, StrengthOf(kind), HitpointsOf(kind), c.0, c.1, false)
  }

  /** The least and the greatest damage of each kind as placed, both possible. */
  lemma DamageExtremes(c: Cell, d: int)
    ensures PossibleDamage(Newcomer(OptimusPrime, c), d) ==> 1 <= d <= 300
    ensures PossibleDamage(Newcomer(OptimusPrime, c), 1) && PossibleDamage(Newcomer(OptimusPrime, c), 300)
    ensures PossibleDamage(Newcomer(Robocop, c), d) <==> 1 <= d <= 30 || 51 <= d <= 80
    ensures PossibleDamage(Newcomer(Roomba, c), d) <==> 2 <= d <= 6
    ensures PossibleDamage(Newcomer(Bulldozer, c), d) <==> 1 <= d <= 50
    ensures PossibleDamage(Newcomer(Kamikaze, c), d) <==> d == 10
  {}

  /** The cell a pair of random numbers denotes. */
  function Drawn(draw: (nat, nat)): Cell { (draw.0 % GSIZE, draw.1 % GSIZE) }

  function CellsDrawn(draws: seq<(nat, nat)>): set<Cell> {
    set k | 0 <= k < |draws| :: Drawn(draws[k])
  }

  lemma DrawOne(draws: seq<(nat, nat)>, k: nat)
    requires k < |draws|
    ensures CellsDrawn(draws[..k + 1]) == CellsDrawn(draws[..k]) + {Drawn(draws[k])}
  {
    assert draws[..k + 1] == draws[..k] + [draws[k]];
  }

  lemma PrefixDrawn(draws: seq<(nat, nat)>, k: nat)
    requires k <= |draws|
    ensures |CellsDrawn(draws[..k])| <= |CellsDrawn(draws)|
    ensures k == |draws| ==> CellsDrawn(draws[..k]) == CellsDrawn(draws)
  {
    assert forall l :: 0 <= l < k ==> draws[..k][l] == draws[l];
    SubsetSize(CellsDrawn(draws[..k]), CellsDrawn(draws));
    assert k == |draws| ==> draws[..k] == draws;
  }

  /** Robots on the grid stand on the board, at their own coordinates. */
  ghost predicate AtOwnCells(robots: seq<Robot>, grid: map<Cell, nat>) {
    forall c :: c in grid ==> OnBoard(c) && grid[c] < |robots| && CellOf(robots[grid[c]]) == c
  }

  ghost predicate AllNewcomers(robots: seq<Robot>) {
    forall i :: 0 <= i < |robots| ==> robots[i] == Newcomer(KindAt(i), CellOf(robots[i]))
  }

  /** The robots placed so far stand in distinct cells: exactly those drawn. */
  ghost predicate Placed(robots: seq<Robot>, grid: map<Cell, nat>, cells: set<Cell>) {
    AtOwnCells(robots, grid) && AllNewcomers(robots) && grid.Keys == cells && |cells| == |robots|
  }

  /** Who the newcomers are: five of each kind, with the strength and hit points of their kind. */
  lemma LineUp(robots: seq<Robot>, i: nat)
    requires AllNewcomers(robots) && |robots| == 25 && i < 25
    ensures var r := robots[i].(x := 0, y := 0);
            && (i < 5 ==> r == Robot(OptimusPrime, 100, 100, 0, 0, false))
            && (5 <= i < 10 ==> r == Robot(Robocop, 30, 40, 0, 0, false))
            && (10 <= i < 15 ==> r == Robot(Roomba, 3, 10, 0, 0, false))
            && (15 <= i < 20 ==> r == Robot(Bulldozer, 50, 200, 0, 0, false))
            && (20 <= i ==> r == Robot(Kamikaze, 10, 10, 0, 0, false))
  {}

  lemma OwnCellsGrow(robots: seq<Robot>, grid: map<Cell, nat>, r: Robot)
    requires AtOwnCells(robots, grid) && OnBoard(CellOf(r))
    ensures AtOwnCells(robots + [r], grid[CellOf(r) := |robots|])
  {}

  lemma PlacedGrows(robots: seq<Robot>, grid: map<Cell, nat>, cells: set<Cell>, c: Cell)
    requires Placed(robots, grid, cells) && OnBoard(c)
    ensures c in grid ==> cells + {c} == cells
    ensures c !in grid ==> Placed(robots + [Newcomer(KindAt(|robots|), c)], grid[c := |robots|], cells + {c})
  {
    OwnCellsGrow(robots, grid, Newcomer(KindAt(|robots|), c));
  }

  /** Who leaves the grid after a fight. */
  datatype Outcome = AttackerGone | VictimGone

  /** The cell one step away in the direction drawn: down, right, up or left. */
  function Neighbour(c: Cell, draw: nat): (d: Cell)
    ensures draw % 4 == 0 ==> d == (c.0, c.1 - 1)
    ensures draw % 4 == 1 ==> d == (c.0 + 1, c.1)
    ensures draw % 4 == 2 ==> d == (c.0, c.1 + 1)
    ensures draw % 4 == 3 ==> d == (c.0 - 1, c.1)
  {
    if draw % 4 == 0 then (c.0, c.1 - 1)
    else if draw % 4 == 1 then (c.0 + 1, c.1)
    else if draw % 4 == 2 then (c.0, c.1 + 1)
    else (c.0 - 1, c.1)
  }

  /** Where a walk ends that stays put instead of leaving the board. */
  function Walk(c: Cell, draws: seq<nat>): Cell {
    if draws == [] then c
    else
      var before := Walk(c, draws[..|draws| - 1]);
      var next := Neighbour(before, draws[|draws| - 1]);
      if OnBoard(next) then next else before
  }

  lemma WalkOne(c: Cell, draws: seq<nat>, k: nat)
    requires k < |draws|
    ensures var next := Neighbour(Walk(c, draws[..k]), draws[k]);
            Walk(c, draws[..k + 1]) == if OnBoard(next) then next else Walk(c, draws[..k])
  {
    assert draws[..k + 1][..k] == draws[..k];
  }

  // ---------------------------------------------------------------- the course of a fight

  /** What the first n blows of a fight cost the victim (even blows, by the attacker) or the attacker (odd ones). */
  ghost function Cost(blows: seq<int>, n: nat, odd: bool): int
    requires n <= |blows|
  {
    if n == 0 then 0
    else Cost(blows, n - 1, odd) + if odd == ((n - 1) % 2 == 1) then blows[n - 1] else 0
  }

  lemma {:induction false} CostPrefix(blows: seq<int>, d: int, n: nat, odd: bool)
    requires n <= |blows|
    ensures Cost(blows + [d], n, odd) == Cost(blows, n, odd)
  {
    if n > 0 { CostPrefix(blows, d, n - 1, odd); }
  }

  /** The robots, who stands where, and the counter. */
  datatype Arena = Arena(robots: seq<Robot>, grid: map<Cell, nat>, count: int)

  /** A robot as it is after losing hit points. */
  function Hurt(r: Robot, cost: int): Robot { r.(hitpoints := r.hitpoints - cost) }

  /** Who strikes the n-th blow, and in what state. */
  ghost function Striker(a: Robot, v: Robot, blows: seq<int>, n: nat): Robot
    requires n <= |blows|
  {
    if n % 2 == 0 then Hurt(a, Cost(blows, n, true)) else Hurt(v, Cost(blows, n, false))
  }

  /** The n-th blow ends the fight: struck by a kamikaze, or leaving the one struck without hit points. */
  ghost predicate Ends(a: Robot, v: Robot, blows: seq<int>, n: nat)
    requires n < |blows|
  {
    if n % 2 == 0 then a.kind == Kamikaze || v.hitpoints - Cost(blows, n + 1, false) <= 0
    else v.kind == Kamikaze || a.hitpoints - Cost(blows, n + 1, true) <= 0
  }

  /** Blows struck in turn, the attacker first, each a possible damage, none of which ended the fight. */
  ghost predicate Fighting(a: Robot, v: Robot, blows: seq<int>) {
    && (forall n {:trigger Striker(a, v, blows, n)} :: 0 <= n < |blows| ==> PossibleDamage(Striker(a, v, blows, n), blows[n]))
    && (forall n {:trigger Ends(a, v, blows, n)} :: 0 <= n < |blows| ==> !Ends(a, v, blows, n))
  }

  /** Who is removed by the blow that ends the fight: a kamikaze that strikes it, otherwise the one struck. */
  function Loser(a: Robot, v: Robot, even: bool): Outcome {
    if even then (if a.kind == Kamikaze then AttackerGone else VictimGone)
    else (if v.kind == Kamikaze then VictimGone else AttackerGone)
  }

  /** The whole fight: its last blow is the one that ends it, and settles who goes. */
  ghost predicate Fought(a: Robot, v: Robot, blows: seq<int>, outcome: Outcome) {
    && blows != []
    && (var n := |blows| - 1;
        && Fighting(a, v, blows[..n]) && PossibleDamage(Striker(a, v, blows, n), blows[n]) && Ends(a, v, blows, n)
        && outcome == Loser(a, v, n % 2 == 0))
  }

  lemma NotOver(a: Robot, v: Robot, blows: seq<int>, n: nat)
    requires Fighting(a, v, blows) && n < |blows|
    ensures !Ends(a, v, blows, n)
  {}

  /**
    A kamikaze attacking is removed by its first blow; one attacked is removed, by its own blow if not before;
    otherwise the robot removed is the one left without hit points.
   */
  lemma WhoIsRemoved(a: Robot, v: Robot, blows: seq<int>, outcome: Outcome)
    requires Fought(a, v, blows, outcome)
    ensures a.kind == Kamikaze ==> outcome == AttackerGone && |blows| == 1
    ensures a.kind != Kamikaze && v.kind == Kamikaze ==> outcome == VictimGone && |blows| <= 2
    ensures a.kind != Kamikaze && v.kind != Kamikaze ==>
              if outcome == VictimGone then v.hitpoints - Cost(blows, |blows|, false) <= 0
              else a.hitpoints - Cost(blows, |blows|, true) <= 0
  {
    var n := |blows| - 1;
    if a.kind == Kamikaze && n > 0 { NotOver(a, v, blows[..n], 0); }
    if v.kind == Kamikaze && n > 1 { NotOver(a, v, blows[..n], 1); }
  }

  function At(r: Robot, c: Cell): Robot { r.(x := c.0, y := c.1) }

  /** The fight between the robot a at `from` and the one at `to`: its blows, its cost, and who is removed. */
  ghost predicate Brawls(s: Arena, s': Arena, from: Cell, to: Cell, outcome: Outcome, blows: seq<int>)
    requires from in s.grid && to in s.grid && s.grid[from] < |s.robots| && s.grid[to] < |s.robots|
  {
    var a, v := s.grid[from], s.grid[to];
    var attacker := s.robots[a].(moved := true);
    && Fought(attacker, s.robots[v], blows, outcome)
    && s'.robots == s.robots[a := Hurt(attacker, Cost(blows, |blows|, true))]
                            [v := Hurt(s.robots[v], Cost(blows, |blows|, false))]
    && s'.grid == (if outcome == AttackerGone then s.grid - {from} else (s.grid - {from})[to := a])
    && s'.count == s.count - 1
  }

  /** One step of robot i to the cell drawn; a fight leads to `mid`, in which the robot has not moved yet. */
  ghost predicate Moves(s: Arena, s': Arena, i: nat, draw: nat, fought: bool, mid: Arena, outcome: Outcome, blows: seq<int>)
    requires Sound(s) && On(s, i)
  {
    var c := CellOf(s.robots[i]);
    var d := Neighbour(c, draw);
    && (fought <==> OnBoard(d) && d in s.grid)
    && (!OnBoard(d) ==> s' == s)
    && (OnBoard(d) && d !in s.grid ==>
          s' == Arena(s.robots[i := At(s.robots[i], d)], (s.grid - {c})[d := i], s.count))
    && (fought ==>
          && Brawls(s, mid, c, d, outcome, blows)
          && s' == mid.(robots := mid.robots[i := At(mid.robots[i], d)]))
  }

  /** Robots on the grid stand on the board at their own coordinates, the counter counts them, all are strong. */
  ghost predicate Sound(s: Arena) {
    && AtOwnCells(s.robots, s.grid)
    && s.count == |s.grid|
    && forall i :: 0 <= i < |s.robots| ==> s.robots[i].strength > 0
  }

  predicate On(s: Arena, i: nat) {
    i < |s.robots| && CellOf(s.robots[i]) in s.grid && s.grid[CellOf(s.robots[i])] == i
  }

  /** Everyone but robot i stands where it stood, if it still stands, with its flag as it was. */
  ghost predicate OthersKept(s: Arena, s': Arena, i: nat) {
    forall c :: c in s'.grid && s'.grid[c] != i ==>
      && c in s.grid && s.grid[c] == s'.grid[c]
      && s.grid[c] < |s.robots| == |s'.robots| && s'.robots[s.grid[c]].moved == s.robots[s.grid[c]].moved
  }

  lemma StepSound(s: Arena, i: nat, d: Cell)
    requires Sound(s) && On(s, i) && OnBoard(d) && d !in s.grid
    ensures var c := CellOf(s.robots[i]);
            var s' := Arena(s.robots[i := At(s.robots[i], d)], (s.grid - {c})[d := i], s.count);
            Sound(s') && On(s', i) && OthersKept(s, s', i) && s'.count >= 1
  {
    SizeAfter(s.grid, CellOf(s.robots[i]), d, i);
  }

  /** A fight moves nobody and changes no flag but that of the robot attacking. */
  lemma BrawlKeepsPlaces(s: Arena, mid: Arena, i: nat, d: Cell, outcome: Outcome, blows: seq<int>)
    requires Sound(s) && On(s, i) && d in s.grid && d != CellOf(s.robots[i])
    requires Brawls(s, mid, CellOf(s.robots[i]), d, outcome, blows)
    ensures |mid.robots| == |s.robots| && mid.robots[i].moved
    ensures forall k :: 0 <= k < |s.robots| ==>
              && CellOf(mid.robots[k]) == CellOf(s.robots[k]) && mid.robots[k].strength == s.robots[k].strength
              && (k != i ==> mid.robots[k].moved == s.robots[k].moved)
  {}

  lemma BrawlGrid(s: Arena, mid: Arena, i: nat, d: Cell, outcome: Outcome, blows: seq<int>)
    requires Sound(s) && On(s, i) && OnBoard(d) && d in s.grid && d != CellOf(s.robots[i])
    requires Brawls(s, mid, CellOf(s.robots[i]), d, outcome, blows)
    ensures mid.count == |mid.grid| && mid.count >= 1
    ensures forall b :: b in mid.grid ==> OnBoard(b) && ((b == d && mid.grid[b] == i) || (b in s.grid && mid.grid[b] == s.grid[b] != i))
  {
    SizeAfter(s.grid, CellOf(s.robots[i]), d, i);
  }

  lemma BrawlSound(s: Arena, mid: Arena, i: nat, d: Cell, outcome: Outcome, blows: seq<int>)
    requires Sound(s) && On(s, i) && OnBoard(d) && d in s.grid && d != CellOf(s.robots[i])
    requires Brawls(s, mid, CellOf(s.robots[i]), d, outcome, blows)
    ensures |mid.robots| == |s.robots| && mid.robots[i].moved
    ensures var s' := mid.(robots := mid.robots[i := At(mid.robots[i], d)]);
            Sound(s') && OthersKept(s, s', i) && s'.count >= 1
  {
    BrawlKeepsPlaces(s, mid, i, d, outcome, blows);
    BrawlGrid(s, mid, i, d, outcome, blows);
  }

  /** What every step keeps. */
  lemma MovesSound(s: Arena, s': Arena, i: nat, draw: nat, fought: bool, mid: Arena, outcome: Outcome, blows: seq<int>)
    requires Sound(s) && On(s, i) && Moves(s, s', i, draw, fought, mid, outcome, blows)
    ensures Sound(s') && OthersKept(s, s', i) && |s'.robots| == |s.robots| && s'.count >= 1
    ensures s'.count == if fought then s.count - 1 else s.count
    ensures s'.robots[i].moved <==> s.robots[i].moved || fought
    ensures !fought ==> On(s', i)
    ensures var d := Neighbour(CellOf(s.robots[i]), draw);
            CellOf(s'.robots[i]) == if OnBoard(d) then d else CellOf(s.robots[i])
  {
    var d := Neighbour(CellOf(s.robots[i]), draw);
    if fought {
      BrawlSound(s, mid, i, d, outcome, blows);
    } else if OnBoard(d) {
      StepSound(s, i, d);
    } else {
      OneCell(s.grid, CellOf(s.robots[i]));
    }
  }

  // ---------------------------------------------------------------- a round

  predicate Before(c: Cell, i: int, j: int) { c.0 < i || (c.0 == i && c.1 < j) }

  /** The cell is the end of a walk that used up all the random numbers of the cell it started from. */
  ghost predicate Rested(c: Cell, draws: Cell -> seq<nat>) {
    exists start: Cell :: OnBoard(start) && c == Walk(start, draws(start))
  }

  /** Whoever stands in a cell whose turn is over has fought or used up its random numbers. */
  ghost predicate TurnsOver(s: Arena, draws: Cell -> seq<nat>, i: int, j: int) {
    forall c :: c in s.grid && Before(c, i, j) ==>
      s.grid[c] < |s.robots| && (s.robots[s.grid[c]].moved || Rested(c, draws))
  }

  ghost predicate NobodyMoved(s: Arena) {
    forall c :: c in s.grid ==> s.grid[c] < |s.robots| && !s.robots[s.grid[c]].moved
  }

  lemma TurnOver(s: Arena, s': Arena, r: nat, draws: Cell -> seq<nat>, i: int, j: int)
    requires Sound(s) && Sound(s') && On(s, r) && CellOf(s.robots[r]) == (i, j) && |s'.robots| == |s.robots|
    requires OthersKept(s, s', r)
    ensures TurnsOver(s, draws, i, j) && (s'.robots[r].moved || CellOf(s'.robots[r]) == Walk((i, j), draws((i, j)))) ==>
              TurnsOver(s', draws, i, j + 1)
  {
    if TurnsOver(s, draws, i, j) && (s'.robots[r].moved || CellOf(s'.robots[r]) == Walk((i, j), draws((i, j)))) {
      forall c | c in s'.grid && Before(c, i, j + 1) ensures s'.robots[s'.grid[c]].moved || Rested(c, draws) {
        if s'.grid[c] != r { assert c in s.grid && c != (i, j); }
      }
    }
  }

  /** Both robots as they are after the blows struck so far; everyone else untouched. */
  ghost predicate AfterBlows(before: seq<Robot>, after: seq<Robot>, attacker: nat, victim: nat, a: Robot, v: Robot, blows: seq<int>) {
    && attacker < |before| && victim < |before|
    && after == before[attacker := Hurt(a, Cost(blows, |blows|, true))][victim := Hurt(v, Cost(blows, |blows|, false))]
  }

  lemma BlowPrefix(a: Robot, v: Robot, blows: seq<int>, d: int, n: nat)
    requires n <= |blows|
    ensures Striker(a, v, blows + [d], n) == Striker(a, v, blows, n)
    ensures n < |blows| ==> (Ends(a, v, blows + [d], n) <==> Ends(a, v, blows, n))
  {
    CostPrefix(blows, d, n, true);
    CostPrefix(blows, d, n, false);
    if n < |blows| {
      CostPrefix(blows, d, n + 1, true);
      CostPrefix(blows, d, n + 1, false);
    }
  }

  /** One more blow either carries on the fight or ends it. */
  lemma BlowStruck(a: Robot, v: Robot, blows: seq<int>, d: int, outcome: Outcome)
    requires Fighting(a, v, blows) && PossibleDamage(Striker(a, v, blows, |blows|), d)
    ensures !Ends(a, v, blows + [d], |blows|) ==> Fighting(a, v, blows + [d])
    ensures Ends(a, v, blows + [d], |blows|) && outcome == Loser(a, v, |blows| % 2 == 0) ==>
              Fought(a, v, blows + [d], outcome)
  {
    forall n | 0 <= n < |blows| + 1
      ensures PossibleDamage(Striker(a, v, blows + [d], n), (blows + [d])[n])
      ensures n < |blows| ==> !Ends(a, v, blows + [d], n)
    {
      BlowPrefix(a, v, blows, d, n);
      if n < |blows| { assert PossibleDamage(Striker(a, v, blows, n), blows[n]) && !Ends(a, v, blows, n); }
    }
    assert (blows + [d])[..|blows|] == blows;
  }

  lemma CostOfLast(blows: seq<int>, d: int)
    ensures Cost(blows + [d], |blows| + 1, true) == Cost(blows, |blows|, true) + (if |blows| % 2 == 1 then d else 0)
    ensures Cost(blows + [d], |blows| + 1, false) == Cost(blows, |blows|, false) + (if |blows| % 2 == 0 then d else 0)
  {
    CostPrefix(blows, d, |blows|, true);
    CostPrefix(blows, d, |blows|, false);
  }

  class Grid {
    var robots: seq<Robot>
    var grid: map<Cell, nat>
    var count: int

    /**
      Robots on the grid stand on the board at their own coordinates, the counter is the number of occupied
      cells, and every robot has positive strength.
     */
    ghost predicate Valid()
      reads this
    {
      Sound(State())
    }

    ghost predicate OnGrid(i: nat)
      reads this
    {
      On(State(), i)
    }

    constructor ()
      ensures robots == [] && grid == map[] && count == 5 * ROBOTS
    {
      robots, grid, count := [], map[], 5 * ROBOTS;
    }

    method PlaceNext(c: Cell, ghost cells: set<Cell>)
      requires Placed(robots, grid, cells) && OnBoard(c)
      modifies this`robots, this`grid
      ensures Placed(robots, grid, cells + {c})
      ensures |robots| <= |old(robots)| + 1
    {
      PlacedGrows(robots, grid, cells, c);
      if c !in grid {
        grid := grid[c := |robots|];
        robots := robots + [Newcomer(KindAt(|robots|), c)];
      }
    }

    /**
      Places the robots, kind after kind, each at the first cell drawn that is still empty. All find a place
      exactly when enough different cells are drawn, and then the invariant holds.
     */
    method Populate(draws: seq<(nat, nat)>) returns (done: bool)
      requires robots == [] && grid == map[] && count == 5 * ROBOTS
      modifies this`robots, this`grid
      ensures done <==> |CellsDrawn(draws)| >= 5 * ROBOTS
      ensures done ==> Valid() && |robots| == 5 * ROBOTS
      ensures done ==> AllNewcomers(robots)
    {
      var k := 0;
      while |robots| < 5 * ROBOTS && k < |draws|
        invariant 0 <= k <= |draws| && |robots| <= 5 * ROBOTS && Placed(robots, grid, CellsDrawn(draws[..k]))
        decreases |draws| - k
      {
        DrawOne(draws, k);
        PlaceNext(Drawn(draws[k]), CellsDrawn(draws[..k]));
        k := k + 1;
      }
      done := |robots| == 5 * ROBOTS;
      PrefixDrawn(draws, k);
    }

    /** One blow: the target loses the damage and is dead at zero or below. */
    method Hit(from: nat, to: nat) returns (dead: bool, ghost d: int)
      requires from < |robots| && to < |robots| && robots[from].strength > 0
      modifies this`robots
      ensures PossibleDamage(old(robots)[from], d) && (old(robots)[from].kind != Kamikaze ==> d >= 1)
      ensures robots == old(robots)[to := Hurt(old(robots)[to], d)]
      ensures dead <==> robots[to].hitpoints <= 0
    {
      var draw1: nat, draw2: nat, bonus: bool, double: bool := *, *, *, *;
      var damage := GetDamage(robots[from], draw1, draw2, bonus, double);
      d := damage;
      robots := robots[to := Hurt(robots[to], damage)];
      return robots[to].hitpoints <= 0, d;
    }

    /** The next blow of a fight: the attacker's when their number is even, otherwise the victim's. */
    method Strike(attacker: nat, victim: nat, even: bool, ghost a: Robot, ghost v: Robot, ghost blows: seq<int>)
      returns (ended: bool, ghost blows': seq<int>)
      requires attacker < |robots| && victim < |robots| && attacker != victim && a.strength > 0 && v.strength > 0
      requires robots[attacker] == Hurt(a, Cost(blows, |blows|, true))
      requires robots[victim] == Hurt(v, Cost(blows, |blows|, false))
      requires Fighting(a, v, blows) && (even <==> |blows| % 2 == 0)
      modifies this`robots
      ensures |blows'| == |blows| + 1 && AfterBlows(old(robots), robots, attacker, victim, a, v, blows')
      ensures if ended then Fought(a, v, blows', Loser(a, v, even)) else Fighting(a, v, blows')
      ensures !ended && even ==> 0 < robots[victim].hitpoints < old(robots)[victim].hitpoints
      ensures !even ==> robots[victim] == old(robots)[victim]
    {
      var dead, d := Hit(if even then attacker else victim, if even then victim else attacker);
      BlowStruck(a, v, blows, d, Loser(a, v, even));
      CostOfLast(blows, d);
      blows' := blows + [d];
      ended := (if even then robots[attacker].kind else robots[victim].kind) == Kamikaze || dead;
    }

    /**
      Blows are exchanged until one robot is removed. A kamikaze is removed by its own first blow, whoever
      else dies of it; the loop ends because every other blow costs the victim at least one hit point.
     */
    method Exchange(attacker: nat, victim: nat) returns (outcome: Outcome, ghost blows: seq<int>)
      requires attacker < |robots| && victim < |robots| && attacker != victim
      requires robots[attacker].strength > 0 && robots[victim].strength > 0
      modifies this`robots
      ensures Fought(old(robots)[attacker], old(robots)[victim], blows, outcome)
      ensures AfterBlows(old(robots), robots, attacker, victim, old(robots)[attacker], old(robots)[victim], blows)
      ensures robots[attacker].kind == Kamikaze ==> outcome == AttackerGone
      ensures robots[attacker].kind != Kamikaze && robots[victim].kind == Kamikaze ==> outcome == VictimGone
      ensures robots[attacker].kind != Kamikaze && robots[victim].kind != Kamikaze ==>
                (if outcome == VictimGone then robots[victim].hitpoints else robots[attacker].hitpoints) <= 0
    {
      ghost var a, v := robots[attacker], robots[victim];
      blows := [];
      while true
        invariant |blows| % 2 == 0 && Fighting(a, v, blows) && AfterBlows(old(robots), robots, attacker, victim, a, v, blows)
        decreases robots[victim].hitpoints
      {
        var ended;
        ended, blows := Strike(attacker, victim, true, a, v, blows);
        if ended {
          outcome := if robots[attacker].kind == Kamikaze then AttackerGone else VictimGone;
          WhoIsRemoved(a, v, blows, outcome);
          return;
        }
        ended, blows := Strike(attacker, victim, false, a, v, blows);
        if ended {
          outcome := if robots[victim].kind == Kamikaze then VictimGone else AttackerGone;
          WhoIsRemoved(a, v, blows, outcome);
          return;
        }
      }
    }

    /** A fight between neighbouring cells removes exactly one of the two robots and counts it out. */
    method Fight(from: Cell, to: Cell) returns (ghost outcome: Outcome, ghost blows: seq<int>)
      requires Valid() && from in grid && to in grid && from != to
      modifies this
      ensures Brawls(old(State()), State(), from, to, outcome, blows)
      ensures count == |grid| && count >= 1
    {
      ghost var s := State();
      var attacker, victim := grid[from], grid[to];
      robots := robots[attacker := robots[attacker].(moved := true)];
      var gone;
      gone, blows := Exchange(attacker, victim);
      outcome := gone;
      grid := grid - {from};
      if gone == VictimGone { grid := grid[to := attacker]; }
      count := count - 1;
      BrawlGrid(s, State(), attacker, to, outcome, blows);
    }

    /** Move into an empty cell, or fight whoever is there. */
    method MoveRobot(from: Cell, to: Cell) returns (fought: bool, ghost outcome: Outcome, ghost blows: seq<int>)
      requires Valid() && from in grid && OnBoard(to) && from != to
      modifies this
      ensures fought <==> to in old(grid)
      ensures if fought then Brawls(old(State()), State(), from, to, outcome, blows)
              else State() == Arena(old(robots), (old(grid) - {from})[to := old(grid)[from]], old(count))
    {
      fought, outcome, blows := false, AttackerGone, [];
      if to !in grid {
        var mover := grid[from];
        grid := (grid - {from})[to := mover];
      } else {
        outcome, blows := Fight(from, to);
        fought := true;
      }
    }

    /**
      One random step of a robot on the grid, to the neighbouring cell drawn: nothing happens at the edge, the
      robot steps into an empty cell, and fights for an occupied one. The invariant is kept.
     */
    method Move(i: nat, draw: nat) returns (fought: bool, ghost mid: Arena, ghost outcome: Outcome, ghost blows: seq<int>)
      requires Valid() && OnGrid(i)
      modifies this
      ensures Moves(old(State()), State(), i, draw, fought, mid, outcome, blows)
      ensures Valid() && count >= 1
    {
      ghost var s := State();
      var from := CellOf(robots[i]);
      var direction := draw % 4;
      var to: Cell := if direction == 0 then (from.0, from.1 - 1)
                      else if direction == 1 then (from.0 + 1, from.1)
                      else if direction == 2 then (from.0, from.1 + 1)
                      else (from.0 - 1, from.1);
      fought, mid, outcome, blows := false, State(), AttackerGone, [];
      if OnBoard(to) {
        fought, outcome, blows := MoveRobot(from, to);
        mid := State();
        robots := robots[i := robots[i].(x := to.0, y := to.1)];
      }
      MovesSound(s, State(), i, draw, fought, mid, outcome, blows);
    }

    /** How far robot i's turn has come after so many of its steps. */
    ghost predicate InTurn(s: Arena, i: nat, draws: seq<nat>, steps: nat)
      reads this
      requires i < |s.robots| && steps <= |draws|
    {
      && Valid() && |robots| == |s.robots| && count >= 1
      && CellOf(robots[i]) == Walk(CellOf(s.robots[i]), draws[..steps])
      && count == (if robots[i].moved && !s.robots[i].moved then s.count - 1 else s.count)
      && (s.robots[i].moved ==> robots[i].moved)
      && (s.count == 1 || s.robots[i].moved ==> State() == s)
      && OthersKept(s, State(), i)
    }

    /** One more step of the turn. */
    method TurnStep(i: nat, draws: seq<nat>, steps: nat, ghost s: Arena)
      requires i < |s.robots| && steps < |draws| && InTurn(s, i, draws, steps)
      requires !robots[i].moved && OnGrid(i) && s.count != 1
      modifies this
      ensures InTurn(s, i, draws, steps + 1) && (robots[i].moved || OnGrid(i))
    {
      ghost var before := State();
      WalkOne(CellOf(s.robots[i]), draws, steps);
      var fought, mid, outcome, blows := Move(i, draws[steps]);
      MovesSound(before, State(), i, draws[steps], fought, mid, outcome, blows);
    }

    /**
      Steps until the robot has fought, one robot is left, or the given random numbers run out. It walks where
      they send it; a robot that fought in this turn cost the grid exactly one robot, otherwise none left.
     */
    method MoveLoop(i: nat, draws: seq<nat>) returns (steps: nat)
      requires Valid() && OnGrid(i)
      modifies this
      ensures steps <= |draws| && InTurn(old(State()), i, draws, steps)
      ensures robots[i].moved || count == 1 || steps == |draws|
    {
      OneCell(grid, CellOf(robots[i]));
      steps := 0;
      while !robots[i].moved && steps < |draws|
        invariant steps <= |draws| && InTurn(old(State()), i, draws, steps)
        invariant robots[i].moved || OnGrid(i)
        decreases |draws| - steps
      {
        if count == 1 { break; }
        TurnStep(i, draws, steps, old(State()));
        steps := steps + 1;
      }
    }

    /** The turn of the robot in a cell, if there is one. */
    method TurnAt(i: nat, j: nat, draws: Cell -> seq<nat>)
      requires Valid() && count >= 1 && TurnsOver(State(), draws, i, j)
      modifies this
      ensures Valid() && |robots| == |old(robots)| && 1 <= count <= old(count)
      ensures count > 1 ==> TurnsOver(State(), draws, i, j + 1)
      ensures count == old(count) && NobodyMoved(old(State())) ==> NobodyMoved(State())
    {
      if (i, j) in grid {
        ghost var s, r := State(), grid[(i, j)];
        var steps := MoveLoop(grid[(i, j)], draws((i, j)));
        if count > 1 {
          assert draws((i, j))[..|draws((i, j))|] == draws((i, j));
          TurnOver(s, State(), r, draws, i, j);
        }
      }
    }

    /**
      Clears every flag, then gives each occupied cell its turn, stopping when one robot is left. Otherwise every
      robot on the grid has fought in its turn or used up its random numbers; and nobody fights at no loss.
     */
    method Turns(draws: Cell -> seq<nat>)
      requires Valid() && count >= 1
      modifies this
      ensures Valid() && |robots| == |old(robots)| && 1 <= count <= old(count)
      ensures count > 1 ==> TurnsOver(State(), draws, 10, 0)
      ensures count == old(count) ==> NobodyMoved(State())
    {
      ClearFlags();
      var i := 0;
      while i < GSIZE
        invariant 0 <= i <= GSIZE && Valid() && |robots| == |old(robots)| && 1 <= count <= old(count)
        invariant TurnsOver(State(), draws, i, 0)
        invariant count == old(count) ==> NobodyMoved(State())
      {
        var j := 0;
        while j < GSIZE
          invariant 0 <= j <= GSIZE && Valid() && |robots| == |old(robots)| && 1 <= count <= old(count)
          invariant TurnsOver(State(), draws, i, j)
          invariant count == old(count) ==> NobodyMoved(State())
        {
          TurnAt(i, j, draws);
          if count == 1 { return; }
          j := j + 1;
        }
        i := i + 1;
      }
    }

    method ClearFlags()
      requires Valid()
      modifies this`robots
      ensures Valid() && |robots| == |old(robots)| && NobodyMoved(State())
    {
      var before, present := robots, grid.Values;
      robots := seq(|before|, i requires 0 <= i < |before| =>
        if i in present then before[i].(moved := false) else before[i]);
    }

    /** With one robot left: scan for it, announce it and clear its cell. It was the only robot on the grid. */
    method Announce() returns (winner: nat)
      requires Valid() && count == 1
      modifies this`grid
      ensures winner < |robots| && grid == map[] && OnBoard(CellOf(robots[winner]))
      ensures old(grid) == map[CellOf(robots[winner]) := winner]
    {
      var i := 0;
      while i < GSIZE
        invariant 0 <= i <= GSIZE && grid == old(grid)
        invariant forall c :: c in grid ==> c.0 >= i
      {
        var j := 0;
        while j < GSIZE
          invariant 0 <= j <= GSIZE && grid == old(grid)
          invariant forall c :: c in grid ==> c.0 > i || (c.0 == i && c.1 >= j)
        {
          if (i, j) in grid {
            winner := grid[(i, j)];
            OnlyCell(grid, (i, j));
            grid := grid - {(i, j)};
            return;
          }
          j := j + 1;
        }
        i := i + 1;
      }
      EmptySize(grid);
      assert false;
    }

    /**
      One simulation round. A winner is announced exactly when one robot is left; it alone stood on the grid
      after the turns, and announcing it clears the grid. Otherwise the invariant holds for the next round.
     */
    method Simulation(draws: Cell -> seq<nat>) returns (winner: Option<nat>, ghost last: map<Cell, nat>)
      requires Valid() && count >= 1
      modifies this
      ensures |robots| == |old(robots)| && 1 <= count <= old(count) && count == |last|
      ensures winner.Some? <==> count == 1
      ensures winner.None? ==> Valid() && grid == last && TurnsOver(State(), draws, 10, 0)
      ensures count == old(count) && winner.None? ==> NobodyMoved(State())
      ensures winner.Some? ==> winner.value < |robots| && grid == map[] && OnBoard(CellOf(robots[winner.value]))
      ensures winner.Some? ==> last == map[CellOf(robots[winner.value]) := winner.value]
    {
      Turns(draws);
      last := grid;
      if count != 1 { return None, last; }
      var champion := Announce();
      winner := Some(champion);
    }

    /**
      Round after round until a winner is announced or the given rounds are over: after every round without a
      winner the invariant holds, and the winner is the only robot left standing.
     */
    method Play(rounds: seq<Cell -> seq<nat>>) returns (winner: Option<nat>, ghost last: map<Cell, nat>)
      requires Valid() && count >= 1
      modifies this
      ensures |robots| == |old(robots)| && 1 <= count <= old(count) && count == |last|
      ensures winner.None? ==> Valid() && grid == last && (count > 1 || rounds == [])
      ensures winner.Some? ==> count == 1 && grid == map[] && winner.value < |robots|
      ensures winner.Some? ==> last == map[CellOf(robots[winner.value]) := winner.value]
    {
      winner, last := None, grid;
      var k := 0;
      while k < |rounds|
        invariant 0 <= k <= |rounds| && Valid() && grid == last && |robots| == |old(robots)|
        invariant 1 <= count <= old(count) && (count > 1 || k == 0)
      {
        winner, last := Simulation(rounds[k]);
        if winner.Some? { return; }
        k := k + 1;
      }
      winner := None;
    }

    ghost function State(): Arena
      reads this
    {
      Arena(robots, grid, count)
    }
  }

  lemma EmptySize(grid: map<Cell, nat>)
    ensures |grid| == 0 || exists c :: c in grid
  {}

  lemma OneCell(grid: map<Cell, nat>, c: Cell)
    requires c in grid
    ensures |grid| >= 1
  {}

  /** The cardinalities behind a move and a fight. */
  lemma SizeAfter(grid: map<Cell, nat>, from: Cell, to: Cell, mover: nat)
    requires from in grid && from != to
    ensures |grid - {from}| == |grid| - 1
    ensures |(grid - {from})[to := mover]| == if to in grid then |grid| - 1 else |grid|
    ensures to in grid ==> |grid| >= 2
  {}

  /** When the counter reaches one, a single robot is left, so the announced winner is unique. */
  lemma OnlyCell(grid: map<Cell, nat>, c: Cell)
    requires |grid| == 1 && c in grid
    ensures grid == map[c := grid[c]] && grid - {c} == map[]
  {
    forall b | b in grid ensures b == c {
      if b != c { SizeAfter(grid, b, c, 0); }
    }
  }
}
