/**
  The registry as the server holds it: global tables changed in place by search and shift loops, proved equal
  to the registry functions, command by command.
 */
module ChatServer {
  import opened ChatRooms

  class Server {
    var clients: seq<Client>
    var rooms: seq<Room>
    var roomCount: int

    ghost function State(): Registry
      reads this
    {
      Registry(clients, rooms, roomCount)
    }

    constructor ()
      ensures Initial(State())
    {
      clients := seq(MAX_CLIENTS, _ => Client(false, ""));
      rooms := seq(MAX_ROOMS, _ => Room("", [], false));
      roomCount := 0;
    }

    method Find(name: string) returns (r: nat)
      ensures r == FindRoom(rooms, name)
    {
      r := 0;
      while r < |rooms|
        invariant r <= |rooms| && FindRoom(rooms, name) == FindRoom(rooms, name, r)
      {
        if rooms[r].active && rooms[r].name == name { return; }
        r := r + 1;
      }
    }

    /** Opens the first inactive room slot under the name; there may be none. */
    method Create(name: string) returns (r: nat)
      modifies this`rooms, this`roomCount
      ensures r == FirstFree(old(rooms))
      ensures if r < |old(rooms)| then rooms == old(rooms)[r := Room(name, [], true)] && roomCount == old(roomCount) + 1
              else rooms == old(rooms) && roomCount == old(roomCount)
    {
      r := 0;
      while r < |rooms|
        invariant r <= |rooms| && FirstFree(rooms) == FirstFree(rooms, r)
        invariant rooms == old(rooms) && roomCount == old(roomCount)
      {
        if !rooms[r].active {
          rooms := rooms[r := Room(name, [], true)];
          roomCount := roomCount + 1;
          return;
        }
        r := r + 1;
      }
    }

    method Leave(c: nat)
      requires c < |clients|
      modifies this
      ensures State() == LeaveRoom(old(State()), c)
    {
      var r := Find(clients[c].room);
      if r < |rooms| {
        var rest, notified := RemoveUser(rooms[r].users, c);
        rooms := rooms[r := rooms[r].(users := rest)];
        if |rest| == 0 {
          rooms := rooms[r := rooms[r].(active := false)];
          roomCount := roomCount - 1;
        }
      }
      clients := clients[c := clients[c].(room := "")];
    }

    method Enter(c: nat, name: string) returns (ok: bool)
      requires c < |clients|
      modifies this
      ensures (ok, State()) == EnterRoom(old(State()), c, name)
    {
      var r := Find(name);
      if r == |rooms| {
        r := Create(name);
        if r == |rooms| { return false; }
      }
      ghost var target := rooms[r];
      assert r < |old(rooms)| && FindRoom(old(rooms), name) == |old(rooms)| ==> target.users + [c] == [c];
      rooms := rooms[r := rooms[r].(users := rooms[r].users + [c])];
      assert rooms == old(rooms)[r := target.(users := target.users + [c])];
      clients := clients[c := clients[c].(room := name)];
      return true;
    }

    method Join(c: nat, name: string) returns (reply: Reply)
      requires c < |clients|
      modifies this
      ensures (reply, State()) == JoinCommand(old(State()), c, name)
    {
      if !ValidName(name) { return InvalidRoomName; }
      if clients[c].room == name { return AlreadyInRoom; }
      var r := Find(name);
      if r < |rooms| && |rooms[r].users| >= MAX_USERS_PER_ROOM { return RoomIsFull; }
      if clients[c].room != "" { Leave(c); }
      var ok := Enter(c, name);
      return if ok then Joined else InvalidRoom;
    }

    method Exit(c: nat) returns (reply: Reply)
      requires c < |clients|
      modifies this
      ensures (reply, State()) == Disconnect(old(State()), c)
    {
      if !clients[c].active { return Gone; }
      if clients[c].room != "" { Leave(c); }
      clients := clients[c := Client(false, "")];
      return Gone;
    }

    method Accept() returns (reply: Reply)
      modifies this`clients
      ensures (reply, State()) == Connect(old(State()))
    {
      var c := 0;
      while c < |clients|
        invariant c <= |clients| && clients == old(clients) && FirstInactive(clients) == FirstInactive(clients, c)
      {
        if !clients[c].active {
          clients := clients[c := Client(true, "")];
          return Connected;
        }
        c := c + 1;
      }
      return ServerFull;
    }

    /** Whole commands keep the registry consistent. */
    method Handle(cmd: Command) returns (reply: Reply)
      requires Inv(State()) && Issuable(State(), cmd)
      modifies this
      ensures Inv(State()) && (reply, State()) == Obey(old(State()), cmd)
    {
      CommandKeepsInv(State(), cmd);
      match cmd {
        case ConnectCmd => reply := Accept();
        case JoinCmd(c, name) => reply := Join(c, name);
        case LeaveCmd(c) =>
          if clients[c].room == "" { return NotInRoom; }
          Leave(c);
          return Left;
        case ExitCmd(c) => reply := Exit(c);
      }
    }
  }

  /** The shift loop: everything after position i moves one place left over it. */
  method ShiftLeft(users: seq<nat>, i: nat) returns (rest: seq<nat>)
    requires i < |users|
    ensures rest == users[..i] + users[i + 1..]
  {
    rest := users;
    for j := i to |users| - 1
      invariant |rest| == |users|
      invariant forall k :: i <= k < j ==> rest[k] == users[k + 1]
      invariant forall k :: 0 <= k < i || j <= k < |users| ==> rest[k] == users[k]
    {
      rest := rest[j := rest[j + 1]];
    }
    rest := rest[..|users| - 1];
  }

  /** Mid-scan: k users have been looked at, those kept are notified, the rest is untouched. */
  ghost predicate Scanned(rest: seq<nat>, notified: seq<nat>, users: seq<nat>, k: nat, c: nat) {
    k <= |users| && notified == Without(users[..k], c) && rest == notified + users[k..]
  }

  lemma ScanStep(rest: seq<nat>, notified: seq<nat>, users: seq<nat>, k: nat, c: nat)
    requires Scanned(rest, notified, users, k, c) && |notified| < |rest|
    ensures k < |users| && rest[|notified|] == users[k]
    ensures if users[k] == c then Scanned(rest[..|notified|] + rest[|notified| + 1..], notified, users, k + 1, c)
            else Scanned(rest, notified + [users[k]], users, k + 1, c)
  {
    assert users[..k + 1][..k] == users[..k];
    assert users[k..] == [users[k]] + users[k + 1..];
    assert rest == notified + [users[k]] + users[k + 1..];
    assert rest[..|notified|] == notified && rest[|notified| + 1..] == users[k + 1..];
  }

  lemma ScanEnds(rest: seq<nat>, notified: seq<nat>, users: seq<nat>, k: nat, c: nat)
    requires Scanned(rest, notified, users, k, c) && |notified| >= |rest|
    ensures rest == Without(users, c) == notified
  {
    assert users[..k] == users && notified + users[k..] == notified;
  }

  /** The scan that removes a client and collects everyone else to notify. */
  method RemoveUser(users: seq<nat>, c: nat) returns (rest: seq<nat>, notified: seq<nat>)
    ensures rest == Without(users, c) && notified == rest
  {
    rest, notified := users, [];
    ghost var k := 0;
    var i := 0;
    while i < |rest|
      invariant Scanned(rest, notified, users, k, c) && i == |notified|
      decreases |users| - k
    {
      ScanStep(rest, notified, users, k, c);
      if rest[i] == c {
        rest := ShiftLeft(rest, i);
      } else {
        notified := notified + [rest[i]];
        i := i + 1;
      }
      k := k + 1;
    }
    ScanEnds(rest, notified, users, k, c);
  }
}
