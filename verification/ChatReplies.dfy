/**
  What every command of the room registry answers and does, stated on the rooms and their member lists: each
  reply if and only if, and the exact change of every room.
 */
module ChatReplies {
  import opened ChatRooms

  /** Slot r is the active room of that name. */
  predicate IsRoom(g: Registry, r: nat, name: string) {
    r < |g.rooms| && g.rooms[r].active && g.rooms[r].name == name
  }

  predicate Inside(g: Registry, c: nat, name: string) {
    exists r: nat :: r < |g.rooms| && IsRoom(g, r, name) && c in g.rooms[r].users
  }

  predicate ListedNowhere(g: Registry, c: nat) {
    forall r: nat :: r < |g.rooms| ==> c !in g.rooms[r].users
  }

  /** One room before and after a client is gone from it: its only occurrence cut out, the others in order. */
  ghost predicate LosesClient(before: Room, after: Room, c: nat) {
    && after.name == before.name
    && (c !in before.users ==> after == before)
    && (c in before.users ==>
          && (after.active <==> after.users != [])
          && exists i: nat :: i < |before.users| && before.users[i] == c
                              && after.users == before.users[..i] + before.users[i + 1..])
  }

  lemma {:induction false} WithoutAbsent(users: seq<nat>, c: nat)
    requires c !in users
    ensures Without(users, c) == users
  {
    if users != [] {
      var n := |users| - 1;
      assert users[n] != c;
      WithoutAbsent(users[..n], c);
      assert users == users[..n] + [users[n]];
    }
  }

  lemma {:induction false} WithoutCutsOut(users: seq<nat>, c: nat) returns (i: nat)
    requires c in users && NoRepeats(users)
    ensures i < |users| && users[i] == c && Without(users, c) == users[..i] + users[i + 1..]
  {
    var n := |users| - 1;
    if users[n] == c {
      WithoutAbsent(users[..n], c);
      i := n;
    } else {
      i := WithoutCutsOut(users[..n], c);
      assert users[..n][..i] == users[..i] && users[i + 1..] == users[..n][i + 1..] + [users[n]];
    }
  }

  lemma OnlyMember(users: seq<nat>, c: nat)
    requires NoRepeats(users) && users != []
    ensures Without(users, c) == [] <==> users == [c]
  {
    if c in users {
      var i := WithoutCutsOut(users, c);
    } else {
      WithoutAbsent(users, c);
    }
  }

  /** A client's current room is the active room that lists it. */
  lemma InsideIsCurrent(g: Registry, c: nat, name: string)
    requires Inv(g) && c < |g.clients| && name != ""
    ensures Inside(g, c, name) <==> g.clients[c].room == name
  {
    if g.clients[c].room == name {
      JoinedIsListed(g, c, name);
      assert IsRoom(g, FindRoom(g.rooms, name), name);
    }
    if r: nat :| r < |g.rooms| && IsRoom(g, r, name) && c in g.rooms[r].users {
      MembershipIsCurrentRoom(g, r, c);
    }
  }

  /** A client with no current room is listed nowhere. */
  lemma NowhereIsNoRoom(g: Registry, c: nat)
    requires Inv(g) && c < |g.clients|
    ensures ListedNowhere(g, c) <==> g.clients[c].room == ""
  {
    if g.clients[c].room == "" {
      forall r: nat | r < |g.rooms| ensures c !in g.rooms[r].users { MembershipIsCurrentRoom(g, r, c); }
    } else {
      InsideIsCurrent(g, c, g.clients[c].room);
    }
  }

  /** The search finds the active room of the name if there is one, and there is at most one. */
  lemma FoundIsRoom(g: Registry, name: string, r: nat)
    requires Inv(g)
    ensures IsRoom(g, r, name) <==> r < |g.rooms| && r == FindRoom(g.rooms, name)
  {
    if IsRoom(g, r, name) { assert Named(g.rooms[r], name); }
  }

  // ---------------------------------------------------------------- join

  /** The name is made of 1 to 32 letters and digits. */
  predicate GoodName(name: string) {
    && 1 <= |name| <= 32
    && forall i :: 0 <= i < |name| ==> 'a' <= name[i] <= 'z' || 'A' <= name[i] <= 'Z' || '0' <= name[i] <= '9'
  }

  /** A room of the name with fewer than 15 members, or no such room and a slot free once the client has left. */
  predicate HasPlace(g: Registry, c: nat, name: string) {
    || (exists r: nat :: r < |g.rooms| && IsRoom(g, r, name) && |g.rooms[r].users| < 15)
    || ((forall r: nat :: r < |g.rooms| ==> !IsRoom(g, r, name))
        && exists r: nat :: r < |g.rooms| && (!g.rooms[r].active || g.rooms[r].users == [c]))
  }

  predicate IsFull(g: Registry, name: string) {
    exists r: nat :: r < |g.rooms| && IsRoom(g, r, name) && |g.rooms[r].users| == 15
  }

  /** Refused early or full. */
  lemma JoinRefusals(g: Registry, c: nat, name: string)
    requires Inv(g) && c < |g.clients| && g.clients[c].active
    ensures var reply := JoinCommand(g, c, name).0;
            && (reply == InvalidRoomName <==> !GoodName(name))
            && (reply == AlreadyInRoom <==> GoodName(name) && Inside(g, c, name))
            && (reply == RoomIsFull <==> GoodName(name) && !Inside(g, c, name) && IsFull(g, name))
  {
    if GoodName(name) {
      InsideIsCurrent(g, c, name);
      var r := FindRoom(g.rooms, name);
      FoundIsRoom(g, name, r);
      if q: nat :| q < |g.rooms| && IsRoom(g, q, name) && |g.rooms[q].users| == 15 { FoundIsRoom(g, name, q); }
    }
  }

  lemma NoRoomFound(g: Registry, name: string)
    requires Inv(g)
    ensures FindRoom(g.rooms, name) == |g.rooms| <==> forall r: nat :: r < |g.rooms| ==> !IsRoom(g, r, name)
  {
    FoundIsRoom(g, name, FindRoom(g.rooms, name));
    forall r: nat | r < |g.rooms| && FindRoom(g.rooms, name) == |g.rooms| ensures !IsRoom(g, r, name) {
      FoundIsRoom(g, name, r);
    }
  }

  lemma VacantSlots(g: Registry, c: nat)
    requires Inv(g)
    ensures (forall r :: 0 <= r < |g.rooms| ==> g.rooms[r].active && Without(g.rooms[r].users, c) != [])
       <==> !exists r: nat :: r < |g.rooms| && (!g.rooms[r].active || g.rooms[r].users == [c])
  {
    forall r: nat | r < |g.rooms| && g.rooms[r].active
      ensures Without(g.rooms[r].users, c) == [] <==> g.rooms[r].users == [c]
    {
      OnlyMember(g.rooms[r].users, c);
    }
  }

  lemma FullOrPlace(g: Registry, c: nat, name: string)
    requires Inv(g)
    ensures !(IsFull(g, name) && HasPlace(g, c, name))
    ensures FindRoom(g.rooms, name) < |g.rooms| ==> IsFull(g, name) || HasPlace(g, c, name)
    ensures FindRoom(g.rooms, name) == |g.rooms| ==> !IsFull(g, name)
  {
    var found := FindRoom(g.rooms, name);
    FoundIsRoom(g, name, found);
    forall r: nat | r < |g.rooms| ensures IsRoom(g, r, name) ==> r == found { FoundIsRoom(g, name, r); }
  }

  /** Every reply to a join, if and only if. */
  lemma JoinRepliesExactly(g: Registry, c: nat, name: string)
    requires Inv(g) && Issuable(g, JoinCmd(c, name))
    ensures var reply := Obey(g, JoinCmd(c, name)).0;
            && (reply == InvalidRoomName <==> !GoodName(name))
            && (reply == AlreadyInRoom <==> GoodName(name) && Inside(g, c, name))
            && (reply == RoomIsFull <==> GoodName(name) && !Inside(g, c, name) && IsFull(g, name))
            && (reply == Joined <==> GoodName(name) && !Inside(g, c, name) && HasPlace(g, c, name))
            && (reply == InvalidRoom <==>
                  GoodName(name) && !Inside(g, c, name) && !IsFull(g, name) && !HasPlace(g, c, name))
  {
    JoinRefusals(g, c, name);
    if GoodName(name) && !Inside(g, c, name) {
      InsideIsCurrent(g, c, name);
      JoinFailsExactlyWhen(g, c, name);
      NoRoomFound(g, name);
      VacantSlots(g, c);
      FullOrPlace(g, c, name);
    }
  }

  // ---------------------------------------------------------------- leave, connect, exit

  /** Leaving cuts the client out of the one room that lists it and touches no other room or client. */
  lemma LeaveEffect(g: Registry, c: nat)
    requires Inv(g) && c < |g.clients| && g.clients[c].room != ""
    ensures var g' := LeaveRoom(g, c);
            && ListedNowhere(g', c) && g'.clients == g.clients[c := g.clients[c].(room := "")]
            && |g'.rooms| == |g.rooms| && forall r: nat :: r < |g.rooms| ==> LosesClient(g.rooms[r], g'.rooms[r], c)
  {
    var g' := LeaveRoom(g, c);
    LeaveKeepsInv(g, c);
    NowhereIsNoRoom(g', c);
    var q := FindRoom(g.rooms, g.clients[c].room);
    forall r: nat | r < |g.rooms| ensures LosesClient(g.rooms[r], g'.rooms[r], c) {
      MembershipIsCurrentRoom(g, r, c);
      FoundIsRoom(g, g.clients[c].room, r);
      if c in g.rooms[r].users { var i := WithoutCutsOut(g.rooms[r].users, c); }
    }
  }

  /** A client that is in a room leaves it; any other is told so. */
  lemma LeaveRepliesExactly(g: Registry, c: nat)
    requires Inv(g) && Issuable(g, LeaveCmd(c))
    ensures var (reply, g') := Obey(g, LeaveCmd(c));
            && (reply == Left <==> exists r: nat :: r < |g.rooms| && c in g.rooms[r].users)
            && (reply == NotInRoom <==> ListedNowhere(g, c))
            && ListedNowhere(g', c) && g'.clients == g.clients[c := Client(true, "")]
            && |g'.rooms| == |g.rooms| && forall r: nat :: r < |g.rooms| ==> LosesClient(g.rooms[r], g'.rooms[r], c)
  {
    NowhereIsNoRoom(g, c);
    if g.clients[c].room != "" { LeaveEffect(g, c); }
  }

  /** Disconnecting frees the client's slot and its place in its room. */
  lemma ExitEffect(g: Registry, c: nat)
    requires Inv(g) && Issuable(g, ExitCmd(c))
    ensures var (reply, g') := Obey(g, ExitCmd(c));
            && reply == Gone && ListedNowhere(g', c) && g'.clients == g.clients[c := Client(false, "")]
            && |g'.rooms| == |g.rooms| && forall r: nat :: r < |g.rooms| ==> LosesClient(g.rooms[r], g'.rooms[r], c)
  {
    NowhereIsNoRoom(g, c);
    if g.clients[c].room != "" { LeaveEffect(g, c); }
  }

  /** A connection is refused exactly when every client slot is taken; otherwise it gets the first free one. */
  lemma ConnectRepliesExactly(g: Registry)
    requires Inv(g)
    ensures var (reply, g') := Obey(g, ConnectCmd);
            && (reply == ServerFull <==> forall i :: 0 <= i < |g.clients| ==> g.clients[i].active)
            && (reply == ServerFull ==> g' == g)
            && (reply != ServerFull ==>
                  && reply == Connected && g'.rooms == g.rooms && g'.roomCount == g.roomCount
                  && exists k: nat :: k < |g.clients| && !g.clients[k].active
                       && (forall i :: 0 <= i < k ==> g.clients[i].active)
                       && g'.clients == g.clients[k := Client(true, "")])
  {}

  // ---------------------------------------------------------------- what a join does

  /** A client with no room enters: its name goes to the end of one room's list. */
  lemma EnterEffect(g: Registry, c: nat, name: string)
    requires Inv(g) && c < |g.clients| && g.clients[c].room == "" && EnterRoom(g, c, name).0
    ensures var g' := EnterRoom(g, c, name).1;
            exists t: nat :: t < |g.rooms| && JoinedAt(g, g', name, c, t) && g'.rooms == g.rooms[t := g'.rooms[t]]
  {
    var g' := EnterRoom(g, c, name).1;
    var found := FindRoom(g.rooms, name);
    var t := if found < |g.rooms| then found else FirstFree(g.rooms);
    FoundIsRoom(g, name, t);
    assert JoinedAt(g, g', name, c, t);
  }

  /** Slot t is now the room of that name, with the client behind the members it had under that name before. */
  ghost predicate JoinedAt(g: Registry, g': Registry, name: string, c: nat, t: nat)
    requires t < |g.rooms|
  {
    && IsRoom(g', t, name)
    && g'.rooms[t].users == (if IsRoom(g, t, name) then g.rooms[t].users else []) + [c]
  }

  /** The registry a join enters the client into: it has left its room, if it was in one. */
  function Vacated(g: Registry, c: nat): Registry
    requires c < |g.clients|
  {
    if g.clients[c].room != "" then LeaveRoom(g, c) else g
  }

  lemma VacatedEffect(g: Registry, c: nat, name: string)
    requires Inv(g) && c < |g.clients| && g.clients[c].active && g.clients[c].room != name
    ensures var left := Vacated(g, c);
            && Inv(left) && left.clients == g.clients[c := Client(true, "")] && |left.rooms| == |g.rooms|
            && (forall r: nat :: r < |g.rooms| ==> LosesClient(g.rooms[r], left.rooms[r], c))
            && FindRoom(left.rooms, name) == FindRoom(g.rooms, name)
            && (forall r: nat :: IsRoom(left, r, name) <==> IsRoom(g, r, name))
            && (forall r: nat :: IsRoom(g, r, name) ==> left.rooms[r].users == g.rooms[r].users)
  {
    NowhereIsNoRoom(g, c);
    if g.clients[c].room != "" {
      LeaveKeepsInv(g, c);
      LeaveKeepsTarget(g, c, name);
      LeaveEffect(g, c);
      forall r: nat ensures IsRoom(LeaveRoom(g, c), r, name) <==> IsRoom(g, r, name) {
        FoundIsRoom(g, name, r);
        FoundIsRoom(LeaveRoom(g, c), name, r);
      }
    }
  }

  /**
    A join that succeeds puts the client behind the members of the room of that name, opening it if there is
    none, takes it out of the room it was in, and touches nothing else.
   */
  lemma JoinEffect(g: Registry, c: nat, name: string)
    requires Inv(g) && Issuable(g, JoinCmd(c, name)) && Obey(g, JoinCmd(c, name)).0 == Joined
    ensures var g' := Obey(g, JoinCmd(c, name)).1;
            && |g'.rooms| == |g.rooms| && g'.clients == g.clients[c := Client(true, name)]
            && exists t: nat :: t < |g.rooms| && JoinedAt(g, g', name, c, t)
                 && forall r: nat :: r < |g.rooms| && r != t ==> LosesClient(g.rooms[r], g'.rooms[r], c)
  {
    JoinClients(g, c, name);
    VacatedEffect(g, c, name);
    var left := Vacated(g, c);
    EnterEffect(left, c, name);
    var g' := EnterRoom(left, c, name).1;
    var t: nat :| t < |left.rooms| && JoinedAt(left, g', name, c, t) && g'.rooms == left.rooms[t := g'.rooms[t]];
    assert IsRoom(left, t, name) <==> IsRoom(g, t, name);
    assert JoinedAt(g, g', name, c, t);
  }

  /** A join refused at once changes nothing; one that finds no slot has already left the room the client was in. */
  lemma RefusedJoinEffect(g: Registry, c: nat, name: string)
    requires Inv(g) && Issuable(g, JoinCmd(c, name)) && Obey(g, JoinCmd(c, name)).0 != Joined
    ensures var (reply, g') := Obey(g, JoinCmd(c, name));
            && (reply != InvalidRoom ==> g' == g)
            && (reply == InvalidRoom ==>
                  && |g'.rooms| == |g.rooms| && g'.clients == g.clients[c := Client(true, "")]
                  && forall r: nat :: r < |g.rooms| ==> LosesClient(g.rooms[r], g'.rooms[r], c))
  {
    JoinClients(g, c, name);
    if Obey(g, JoinCmd(c, name)).0 == InvalidRoom { VacatedEffect(g, c, name); }
  }
}
