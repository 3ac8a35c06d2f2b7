/**
  The chat server's room registry, one whole command at a time: connect, join, leave and disconnect on the
  client table and the room table.
 */
module ChatRooms {
  import opened Sums

  const MAX_CLIENTS := 100
  const MAX_ROOMS := 50
  const MAX_USERS_PER_ROOM := 15
  const MAX_ROOM_NAME_LEN := 32

  datatype Client = Client(active: bool, room: string)
  datatype Room = Room(name: string, users: seq<nat>, active: bool)
  datatype Registry = Registry(clients: seq<Client>, rooms: seq<Room>, roomCount: int)

  predicate AlphaNumeric(c: char) { 'a' <= c <= 'z' || 'A' <= c <= 'Z' || '0' <= c <= '9' }

  predicate ValidName(name: string) {
    0 < |name| <= MAX_ROOM_NAME_LEN && forall i :: 0 <= i < |name| ==> AlphaNumeric(name[i])
  }

  predicate Named(r: Room, name: string) { r.active && r.name == name }

  /** The first active room of that name, or the number of rooms. */
  function FindRoom(rooms: seq<Room>, name: string, i: nat := 0): (r: nat)
    requires i <= |rooms|
    ensures i <= r <= |rooms| && (r < |rooms| ==> Named(rooms[r], name))
    ensures forall j :: i <= j < r ==> !Named(rooms[j], name)
    decreases |rooms| - i
  {
    if i == |rooms| || Named(rooms[i], name) then i else FindRoom(rooms, name, i + 1)
  }

  function FirstFree(rooms: seq<Room>, i: nat := 0): (r: nat)
    requires i <= |rooms|
    ensures i <= r <= |rooms| && (r < |rooms| ==> !rooms[r].active)
    ensures forall j :: i <= j < r ==> rooms[j].active
    decreases |rooms| - i
  {
    if i == |rooms| || !rooms[i].active then i else FirstFree(rooms, i + 1)
  }

  function FirstInactive(clients: seq<Client>, i: nat := 0): (c: nat)
    requires i <= |clients|
    ensures i <= c <= |clients| && (c < |clients| ==> !clients[c].active)
    ensures forall j :: i <= j < c ==> clients[j].active
    decreases |clients| - i
  {
    if i == |clients| || !clients[i].active then i else FirstInactive(clients, i + 1)
  }

  /** A member list with every occurrence of one client taken out. */
  function Without(users: seq<nat>, c: nat): (r: seq<nat>)
    ensures |r| <= |users| && c !in r
    ensures forall x :: x in r <==> x in users && x != c
  {
    if users == [] then []
    else Without(users[..|users| - 1], c) + (if users[|users| - 1] == c then [] else [users[|users| - 1]])
  }

  // ---------------------------------------------------------------- the commands

  function LeaveRoom(g: Registry, c: nat): (g': Registry)
    requires c < |g.clients|
    ensures |g'.clients| == |g.clients| && |g'.rooms| == |g.rooms|
  {
    var r := FindRoom(g.rooms, g.clients[c].room);
    var clients := g.clients[c := g.clients[c].(room := "")];
    if r == |g.rooms| then g.(clients := clients)
    else
      var users := Without(g.rooms[r].users, c);
      Registry(clients, g.rooms[r := g.rooms[r].(users := users, active := users != [])],
               if users == [] then g.roomCount - 1 else g.roomCount)
  }

  /** Finds or opens the room and adds the client; false when no room slot is free. */
  function EnterRoom(g: Registry, c: nat, name: string): (r: (bool, Registry))
    requires c < |g.clients|
    ensures |r.1.clients| == |g.clients| && |r.1.rooms| == |g.rooms|
  {
    var found := FindRoom(g.rooms, name);
    var free := FirstFree(g.rooms);
    var clients := g.clients[c := g.clients[c].(room := name)];
    if found < |g.rooms| then
      (true, Registry(clients, g.rooms[found := g.rooms[found].(users := g.rooms[found].users + [c])], g.roomCount))
    else if free < |g.rooms| then
      (true, Registry(clients, g.rooms[free := Room(name, [c], true)], g.roomCount + 1))
    else (false, g)
  }

  function JoinRoom(g: Registry, c: nat, name: string): (bool, Registry)
    requires c < |g.clients|
  {
    EnterRoom(if g.clients[c].room != "" then LeaveRoom(g, c) else g, c, name)
  }

  datatype Reply = InvalidRoomName | AlreadyInRoom | RoomIsFull | InvalidRoom | Joined | NotInRoom | Left | Connected | ServerFull | Gone

  function JoinCommand(g: Registry, c: nat, name: string): (Reply, Registry)
    requires c < |g.clients|
  {
    if !ValidName(name) then (InvalidRoomName, g)
    else if g.clients[c].room == name then (AlreadyInRoom, g)
    else
      var r := FindRoom(g.rooms, name);
      if r < |g.rooms| && |g.rooms[r].users| >= MAX_USERS_PER_ROOM then (RoomIsFull, g)
      else
        var (ok, g') := JoinRoom(g, c, name);
        (if ok then Joined else InvalidRoom, g')
  }

  function LeaveCommand(g: Registry, c: nat): (Reply, Registry)
    requires c < |g.clients|
  {
    if g.clients[c].room == "" then (NotInRoom, g) else (Left, LeaveRoom(g, c))
  }

  function Connect(g: Registry): (Reply, Registry) {
    var c := FirstInactive(g.clients);
    if c == |g.clients| then (ServerFull, g)
    else (Connected, g.(clients := g.clients[c := Client(true, "")]))
  }

  /** The cleanup of a client that exits or loses its connection. */
  function Disconnect(g: Registry, c: nat): (Reply, Registry)
    requires c < |g.clients|
  {
    if !g.clients[c].active then (Gone, g)
    else
      var left := if g.clients[c].room != "" then LeaveRoom(g, c) else g;
      (Gone, left.(clients := left.clients[c := Client(false, "")]))
  }

  datatype Command = ConnectCmd | JoinCmd(c: nat, name: string) | LeaveCmd(c: nat) | ExitCmd(c: nat)

  /** Only connected clients issue commands. */
  predicate Issuable(g: Registry, cmd: Command) {
    cmd.ConnectCmd? || (cmd.c < |g.clients| && g.clients[cmd.c].active)
  }

  function Obey(g: Registry, cmd: Command): (Reply, Registry)
    requires Issuable(g, cmd)
  {
    match cmd
    case ConnectCmd => Connect(g)
    case JoinCmd(c, name) => JoinCommand(g, c, name)
    case LeaveCmd(c) => LeaveCommand(g, c)
    case ExitCmd(c) => Disconnect(g, c)
  }

  // ---------------------------------------------------------------- invariant

  function IsActive(r: Room): int { if r.active then 1 else 0 }

  ghost predicate NoRepeats(users: seq<nat>) {
    forall i, j :: 0 <= i < j < |users| ==> users[i] != users[j]
  }

  ghost predicate RoomsSound(rooms: seq<Room>) {
    && (forall r :: 0 <= r < |rooms| ==>
          && (rooms[r].active <==> rooms[r].users != [])
          && |rooms[r].users| <= MAX_USERS_PER_ROOM && NoRepeats(rooms[r].users)
          && (rooms[r].active ==> rooms[r].name != ""))
    && (forall r, q :: 0 <= r < q < |rooms| && rooms[r].active && rooms[q].active ==> rooms[r].name != rooms[q].name)
  }

  predicate Listed(rooms: seq<Room>, r: int, x: nat) { 0 <= r < |rooms| && x in rooms[r].users }

  /** Client c's current room is a room that lists it. */
  ghost predicate Housed(clients: seq<Client>, rooms: seq<Room>, c: nat)
    requires c < |clients|
  {
    clients[c].active && exists r :: Listed(rooms, r, c) && rooms[r].name == clients[c].room
  }

  /** Member lists and the clients' current rooms are inverse to each other. */
  ghost predicate Inverse(clients: seq<Client>, rooms: seq<Room>) {
    && (forall r, x: nat :: Listed(rooms, r, x) ==> x < |clients| && clients[x].room == rooms[r].name)
    && (forall c: nat {:trigger Housed(clients, rooms, c)} ::
          c < |clients| && clients[c].room != "" ==> Housed(clients, rooms, c))
  }

  ghost predicate Inv(g: Registry) {
    RoomsSound(g.rooms) && Inverse(g.clients, g.rooms) && g.roomCount == Sum(g.rooms, IsActive)
  }

  /** A client is listed in a room exactly when that room is active and is its current room. */
  lemma MembershipIsCurrentRoom(g: Registry, r: nat, c: nat)
    requires Inv(g) && r < |g.rooms| && c < |g.clients|
    ensures c in g.rooms[r].users <==> g.rooms[r].active && g.clients[c].room == g.rooms[r].name
  {
    if g.rooms[r].active && g.clients[c].room == g.rooms[r].name {
      assert Housed(g.clients, g.rooms, c);
      var q :| Listed(g.rooms, q, c) && g.rooms[q].name == g.clients[c].room;
      assert g.rooms[q].users != [];
    }
    assert Listed(g.rooms, r, c) <==> c in g.rooms[r].users;
  }

  lemma {:induction false} WithoutNoRepeats(users: seq<nat>, c: nat)
    requires NoRepeats(users)
    ensures NoRepeats(Without(users, c))
  {
    if users != [] {
      var n := |users| - 1;
      WithoutNoRepeats(users[..n], c);
      var w := Without(users[..n], c);
      forall i | 0 <= i < |w| ensures w[i] != users[n] {
        assert w[i] in w;
        var k :| 0 <= k < n && users[..n][k] == w[i];
      }
    }
  }

  /** Leaving takes the client out of exactly its own room and closes the room if it was the last. */
  lemma LeaveKeepsInv(g: Registry, c: nat)
    requires Inv(g) && c < |g.clients| && g.clients[c].room != ""
    ensures Inv(LeaveRoom(g, c)) && LeaveRoom(g, c).clients == g.clients[c := g.clients[c].(room := "")]
  {
    var g' := LeaveRoom(g, c);
    assert Housed(g.clients, g.rooms, c);
    var q :| Listed(g.rooms, q, c) && g.rooms[q].name == g.clients[c].room;
    assert g.rooms[q].users != [];
    var r := FindRoom(g.rooms, g.clients[c].room);
    assert Named(g.rooms[q], g.clients[c].room);
    assert r == q;
    WithoutNoRepeats(g.rooms[r].users, c);
    SumUpdate(g.rooms, r, g'.rooms[r], IsActive);
    LeaveInverse(g, c, r);
  }

  lemma LeaveInverse(g: Registry, c: nat, r: nat)
    requires Inv(g) && c < |g.clients| && r < |g.rooms| && r == FindRoom(g.rooms, g.clients[c].room)
    ensures Inverse(LeaveRoom(g, c).clients, LeaveRoom(g, c).rooms)
  {
    var g' := LeaveRoom(g, c);
    forall s, x: nat | Listed(g'.rooms, s, x) ensures x < |g'.clients| && g'.clients[x].room == g'.rooms[s].name {
      assert Listed(g.rooms, s, x);
    }
    forall d: nat | d < |g'.clients| && g'.clients[d].room != "" ensures Housed(g'.clients, g'.rooms, d) {
      assert Housed(g.clients, g.rooms, d);
      var s :| Listed(g.rooms, s, d) && g.rooms[s].name == g.clients[d].room;
      assert Listed(g'.rooms, s, d);
    }
  }

  lemma EnterKeepsInv(g: Registry, c: nat, name: string)
    requires Inv(g) && c < |g.clients| && g.clients[c] == Client(true, "") && name != ""
    requires var r := FindRoom(g.rooms, name); r < |g.rooms| ==> |g.rooms[r].users| < MAX_USERS_PER_ROOM
    ensures Inv(EnterRoom(g, c, name).1)
  {
    var (ok, g') := EnterRoom(g, c, name);
    if ok {
      var found := FindRoom(g.rooms, name);
      var r := if found < |g.rooms| then found else FirstFree(g.rooms);
      EnterSound(g, c, name);
      SumUpdate(g.rooms, r, g'.rooms[r], IsActive);
      EnterInverse(g, c, name, r);
    }
  }

  lemma EnterSound(g: Registry, c: nat, name: string)
    requires Inv(g) && c < |g.clients| && g.clients[c].room == "" && name != "" && EnterRoom(g, c, name).0
    requires var r := FindRoom(g.rooms, name); r < |g.rooms| ==> |g.rooms[r].users| < MAX_USERS_PER_ROOM
    ensures RoomsSound(EnterRoom(g, c, name).1.rooms)
  {
    var g' := EnterRoom(g, c, name).1;
    var found := FindRoom(g.rooms, name);
    var r := if found < |g.rooms| then found else FirstFree(g.rooms);
    forall s, q | 0 <= s < q < |g'.rooms| && g'.rooms[s].active && g'.rooms[q].active
      ensures g'.rooms[s].name != g'.rooms[q].name
    {
      if s == r { assert found == |g.rooms| ==> !Named(g.rooms[q], name); }
      if q == r { assert found == |g.rooms| ==> !Named(g.rooms[s], name); }
    }
    if found < |g.rooms| {
      assert Listed(g.rooms, found, c) <==> c in g.rooms[found].users;
    }
  }

  lemma EnterInverse(g: Registry, c: nat, name: string, r: nat)
    requires Inv(g) && c < |g.clients| && g.clients[c] == Client(true, "") && name != "" && EnterRoom(g, c, name).0
    requires var found := FindRoom(g.rooms, name); r == if found < |g.rooms| then found else FirstFree(g.rooms)
    ensures Inverse(EnterRoom(g, c, name).1.clients, EnterRoom(g, c, name).1.rooms)
  {
    var g' := EnterRoom(g, c, name).1;
    forall s, x: nat | Listed(g'.rooms, s, x) ensures x < |g'.clients| && g'.clients[x].room == g'.rooms[s].name {
      if x != c || s != r {
        assert Listed(g.rooms, s, x);
        assert g.rooms[s].users != [];
      }
    }
    forall d: nat | d < |g'.clients| && g'.clients[d].room != "" ensures Housed(g'.clients, g'.rooms, d) {
      if d == c {
        assert Listed(g'.rooms, r, c);
      } else {
        assert Housed(g.clients, g.rooms, d);
        var s :| Listed(g.rooms, s, d) && g.rooms[s].name == g.clients[d].room;
        assert g.rooms[s].users != [];
        assert Listed(g'.rooms, s, d);
      }
    }
  }

  /** Leaving one room leaves the size and name of every other room alone. */
  lemma LeaveKeepsTarget(g: Registry, c: nat, name: string)
    requires Inv(g) && c < |g.clients| && g.clients[c].room != "" && g.clients[c].room != name
    ensures FindRoom(LeaveRoom(g, c).rooms, name) == FindRoom(g.rooms, name)
    ensures var r := FindRoom(g.rooms, name); r < |g.rooms| ==> LeaveRoom(g, c).rooms[r] == g.rooms[r]
  {}

  lemma JoinKeepsInv(g: Registry, c: nat, name: string)
    requires Inv(g) && c < |g.clients| && g.clients[c].active
    ensures Inv(JoinCommand(g, c, name).1)
  {
    var r := FindRoom(g.rooms, name);
    if ValidName(name) && g.clients[c].room != name && !(r < |g.rooms| && |g.rooms[r].users| >= MAX_USERS_PER_ROOM) {
      if g.clients[c].room != "" {
        LeaveKeepsInv(g, c);
        LeaveKeepsTarget(g, c, name);
        EnterKeepsInv(LeaveRoom(g, c), c, name);
      } else {
        EnterKeepsInv(g, c, name);
      }
    }
  }

  lemma JoinedIsListed(g: Registry, c: nat, name: string)
    requires Inv(g) && c < |g.clients| && g.clients[c].room == name && name != ""
    ensures var r := FindRoom(g.rooms, name); r < |g.rooms| && c in g.rooms[r].users
  {
    assert Housed(g.clients, g.rooms, c);
    var q :| Listed(g.rooms, q, c) && g.rooms[q].name == name;
    assert g.rooms[q].users != [] && Named(g.rooms[q], name);
    MembershipIsCurrentRoom(g, FindRoom(g.rooms, name), c);
  }

  lemma JoinClients(g: Registry, c: nat, name: string)
    requires Inv(g) && c < |g.clients| && g.clients[c].active
    ensures var (reply, g') := JoinCommand(g, c, name);
            && (reply == Joined ==> ValidName(name) && g'.clients == g.clients[c := Client(true, name)])
            && (reply == InvalidRoom ==> g'.clients == g.clients[c := Client(true, "")])
            && (reply != Joined && reply != InvalidRoom ==> g' == g)
  {}

  /**
    A join changes the current room of that client alone: to the new room when it succeeds, to none when no
    slot is free, and not at all when it is refused. With the invariant this fixes every member list as a set.
   */
  lemma JoinMovesOnlyTheClient(g: Registry, c: nat, name: string)
    requires Inv(g) && c < |g.clients| && g.clients[c].active
    ensures var (reply, g') := JoinCommand(g, c, name);
            && (reply == Joined ==> g'.clients == g.clients[c := Client(true, name)])
            && (reply == InvalidRoom ==> g'.clients == g.clients[c := Client(true, "")])
            && (reply != Joined && reply != InvalidRoom ==> g' == g)
            && (reply == Joined ==> var r := FindRoom(g'.rooms, name); r < |g'.rooms| && c in g'.rooms[r].users)
  {
    JoinKeepsInv(g, c, name);
    JoinClients(g, c, name);
    var (reply, g') := JoinCommand(g, c, name);
    if reply == Joined { JoinedIsListed(g', c, name); }
  }

  lemma ClientWithoutRoom(g: Registry, c: nat, active: bool)
    requires Inv(g) && c < |g.clients| && g.clients[c].room == ""
    ensures Inv(g.(clients := g.clients[c := Client(active, "")]))
  {
    var clients := g.clients[c := Client(active, "")];
    forall r, x: nat | Listed(g.rooms, r, x) ensures x < |clients| && clients[x].room == g.rooms[r].name {
      assert g.rooms[r].users != [];
    }
    forall d: nat | d < |clients| && clients[d].room != "" ensures Housed(clients, g.rooms, d) {
      assert Housed(g.clients, g.rooms, d);
      var s :| Listed(g.rooms, s, d) && g.rooms[s].name == g.clients[d].room;
      assert Listed(g.rooms, s, d) && g.rooms[s].name == clients[d].room;
    }
  }

  /** Every command keeps the registry consistent. */
  lemma CommandKeepsInv(g: Registry, cmd: Command)
    requires Inv(g) && Issuable(g, cmd)
    ensures Inv(Obey(g, cmd).1)
  {
    match cmd {
      case ConnectCmd =>
        var c := FirstInactive(g.clients);
        if c < |g.clients| {
          assert g.clients[c].room != "" ==> Housed(g.clients, g.rooms, c);
          ClientWithoutRoom(g, c, true);
        }
      case JoinCmd(c, name) => JoinKeepsInv(g, c, name);
      case LeaveCmd(c) => if g.clients[c].room != "" { LeaveKeepsInv(g, c); }
      case ExitCmd(c) =>
        if g.clients[c].room != "" {
          LeaveKeepsInv(g, c);
          ClientWithoutRoom(LeaveRoom(g, c), c, false);
        } else {
          ClientWithoutRoom(g, c, false);
        }
    }
  }

  // ---------------------------------------------------------------- whole sequences of commands

  ghost predicate Initial(g: Registry) {
    && |g.clients| == MAX_CLIENTS && |g.rooms| == MAX_ROOMS && g.roomCount == 0
    && (forall c :: 0 <= c < |g.clients| ==> g.clients[c] == Client(false, ""))
    && (forall r :: 0 <= r < |g.rooms| ==> g.rooms[r] == Room("", [], false))
  }

  lemma InitialHasInv(g: Registry)
    requires Initial(g)
    ensures Inv(g)
  {
    SumZero(g.rooms, IsActive);
  }

  ghost predicate ObeysTo(g: Registry, cmd: Command, g': Registry) {
    Issuable(g, cmd) && g' == Obey(g, cmd).1
  }

  ghost predicate IsSession(states: seq<Registry>, cmds: seq<Command>) {
    && |states| == |cmds| + 1 && Initial(states[0])
    && forall k :: 0 <= k < |cmds| ==> ObeysTo(states[k], cmds[k], states[k + 1])
  }

  /** After any sequence of commands the registry is consistent and of unchanged size. */
  lemma {:induction false} EverySessionState(states: seq<Registry>, cmds: seq<Command>, k: nat)
    requires IsSession(states, cmds) && k < |states|
    ensures Inv(states[k]) && |states[k].clients| == 100 && |states[k].rooms| == 50
    ensures forall r :: 0 <= r < 50 ==> |states[k].rooms[r].users| <= 15
  {
    if k == 0 {
      InitialHasInv(states[0]);
    } else {
      EverySessionState(states, cmds, k - 1);
      assert ObeysTo(states[k - 1], cmds[k - 1], states[k]);
      CommandKeepsInv(states[k - 1], cmds[k - 1]);
    }
  }

  /** A valid join fails for want of a slot exactly when all rooms stay active and none has the name. */
  lemma JoinFailsExactlyWhen(g: Registry, c: nat, name: string)
    requires Inv(g) && c < |g.clients| && g.clients[c].active && ValidName(name) && g.clients[c].room != name
    ensures JoinCommand(g, c, name).0 == InvalidRoom <==>
            && FindRoom(g.rooms, name) == |g.rooms|
            && (forall r :: 0 <= r < |g.rooms| ==> g.rooms[r].active && Without(g.rooms[r].users, c) != [])
  {
    if g.clients[c].room != "" {
      LeaveKeepsTarget(g, c, name);
      LeaveKeepsInv(g, c);
      var g' := LeaveRoom(g, c);
      forall r | 0 <= r < |g.rooms|
        ensures g'.rooms[r].active <==> g.rooms[r].active && Without(g.rooms[r].users, c) != []
      {
        LeaveActivity(g, c, r);
      }
      assert FirstFree(g'.rooms) == |g'.rooms| <==> forall r :: 0 <= r < |g'.rooms| ==> g'.rooms[r].active;
    } else {
      forall r | 0 <= r < |g.rooms| && g.rooms[r].active ensures Without(g.rooms[r].users, c) != [] {
        MembershipIsCurrentRoom(g, r, c);
        assert g.rooms[r].users[0] in Without(g.rooms[r].users, c);
      }
      assert FirstFree(g.rooms) == |g.rooms| <==> forall r :: 0 <= r < |g.rooms| ==> g.rooms[r].active;
    }
  }

  lemma LeaveActivity(g: Registry, c: nat, r: nat)
    requires Inv(g) && c < |g.clients| && g.clients[c].room != "" && r < |g.rooms|
    ensures LeaveRoom(g, c).rooms[r].active <==> g.rooms[r].active && Without(g.rooms[r].users, c) != []
  {
    var q := FindRoom(g.rooms, g.clients[c].room);
    MembershipIsCurrentRoom(g, r, c);
    if r != q && g.rooms[r].active {
      assert Housed(g.clients, g.rooms, c);
      assert g.rooms[r].users[0] in g.rooms[r].users;
    }
  }
}
