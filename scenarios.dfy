/** Clients of the handlers: event sequences over one shared registry and the
    outcomes the handlers' contracts guarantee for them. */
module Scenarios {
  import opened JsObject
  import opened Presence
  import opened Sockets

  /** A fresh registry in which `u` alone has joined `g` through connection `sock`. */
  method JoinAlone(u: string, g: string, sock: string, t: int) returns (registry: Registry, conn: Connection)
    requires u != "" && g != ""
    ensures fresh(registry) && fresh(conn) && conn.registry == registry && conn.id == sock
    ensures registry.Valid() && conn.currentGroup == Some(g) && conn.currentUserId == Some(u)
    ensures registry.groups.keys == [g] && registry.groups.vals[g].keys == [u]
    ensures registry.groups.vals[g].vals[u] == Rejoined(None, sock, t)
  {
    registry := new Registry();
    conn := new Connection(sock, registry);
    conn.OnJoinGroup(u, g, t);
  }

  /** `u` joins `g` alone, sends a position and turns sharing off, all on connection `sock`. */
  method HideAlone(u: string, g: string, sock: string, lat: Scalar, lng: Scalar, t0: int, t1: int)
    returns (registry: Registry, conn: Connection)
    requires u != "" && g != ""
    ensures fresh(registry) && fresh(conn) && conn.registry == registry && conn.id == sock
    ensures registry.Valid() && conn.currentGroup == Some(g) && conn.currentUserId == Some(u)
    ensures registry.groups.keys == [g] && registry.groups.vals[g].keys == [u]
    ensures registry.groups.vals[g].vals[u] == Member(lat, lng, Null, Null, false, sock, true, t1)
  {
    registry, conn := JoinAlone(u, g, sock, t0);
    conn.OnUpdateLocation(lat, lng, Null, Null, t1);
    assert registry.groups.vals[g].vals[u] == Member(lat, lng, Null, Null, true, sock, true, t1);
    conn.OnToggleSharing(false);
  }

  /** `u` joins `g` alone, sends a position, turns sharing off, then loses the connection. */
  method GoOffline(u: string, g: string, lat: Scalar, lng: Scalar, t0: int, t1: int, t2: int)
    returns (registry: Registry, conn: Connection)
    requires u != "" && g != ""
    ensures fresh(registry) && registry.Valid()
    ensures registry.groups.keys == [g] && registry.groups.vals[g].keys == [u]
    ensures registry.groups.vals[g].vals[u] == Member(lat, lng, Null, Null, false, "first", false, t2)
  {
    registry, conn := HideAlone(u, g, "first", lat, lng, t0, t1);
    conn.OnDisconnect(t2);
  }

  /** The only member of the only group leaving empties the registry. */
  lemma LeaveOnly(gs: Groups, g: string, u: string)
    requires GroupsValid(gs) && gs.keys == [g] && gs.vals[g].keys == [u]
    ensures AfterLeave(gs, g, u).keys == [] && AfterLeave(gs, g, u).vals == map[]
  {
    assert gs.vals[g].vals.Keys == {u};
    assert Without([g], g) == [];
  }

  /** A user who hid and then disconnected keeps an inactive marker with the last
      position; joining again on a new connection keeps that position and the sharing
      flag (still off), reactivates the record and does not duplicate it. */
  method RejoinAfterDisconnect(u: string, g: string, lat: Scalar, lng: Scalar, t0: int, t1: int, t2: int, t3: int)
    returns (offline: Member, back: Member, count: nat)
    requires u != "" && g != ""
    ensures !offline.active && offline.lastSeen == t2 && offline.lat == lat && offline.lng == lng
    ensures back.active && back.lastSeen == t3 && back.socketId == "second"
    ensures back.lat == lat && back.lng == lng && back.speed == Null && !back.sharing
    ensures count == 1
  {
    var registry, first := GoOffline(u, g, lat, lng, t0, t1, t2);
    offline := registry.groups.vals[g].vals[u];
    var second := new Connection("second", registry);
    second.OnJoinGroup(u, g, t3);
    assert registry.groups.vals[g].vals[u] == Rejoined(Some(offline), "second", t3);
    back := registry.groups.vals[g].vals[u];
    var status := registry.Status();
    count := status.groups.vals[g].memberCount;
  }

  /** Joining again on the same connection first leaves, so the earlier position and
      sharing flag are not kept. */
  method RejoinOnSameConnection(u: string, g: string, lat: Scalar, lng: Scalar, t0: int, t1: int, t2: int)
    returns (m: Member)
    requires u != "" && g != ""
    ensures m.lat == Null && m.lng == Null && m.sharing && m.active && m.lastSeen == t2
  {
    var registry, conn := HideAlone(u, g, "conn", lat, lng, t0, t1);
    LeaveOnly(registry.groups, g, u);
    conn.OnJoinGroup(u, g, t2);
    m := registry.groups.vals[g].vals[u];
  }

  /** A second user joining a group that holds one member is appended after it. */
  lemma JoinSecond(gs: Groups, g: string, a: string, b: string, m: Member)
    requires GroupsValid(gs) && gs.keys == [g] && gs.vals[g].keys == [a] && a != b
    ensures GroupOf(gs, g).Get(b) == None
    ensures var r := PutMember(gs, g, b, m);
      r.keys == [g] && r.vals[g].keys == [a, b] && r.vals[g].vals[a] == gs.vals[g].vals[a] && r.vals[g].vals[b] == m
  {
    assert b !in gs.vals[g].keys;
  }

  /** A fresh registry in which `a` and then `b` have joined `g`, through connections "a" and "b". */
  method JoinPair(a: string, b: string, g: string, t: int) returns (registry: Registry, ca: Connection, cb: Connection)
    requires a != "" && b != "" && g != "" && a != b
    ensures fresh(registry) && fresh(ca) && fresh(cb)
    ensures ca.registry == registry && cb.registry == registry && ca.id == "a" && cb.id == "b"
    ensures ca.currentGroup == Some(g) && ca.currentUserId == Some(a)
    ensures cb.currentGroup == Some(g) && cb.currentUserId == Some(b)
    ensures registry.Valid() && registry.groups.keys == [g] && registry.groups.vals[g].keys == [a, b]
    ensures registry.groups.vals[g].vals[a] == Rejoined(None, "a", t)
    ensures registry.groups.vals[g].vals[b] == Rejoined(None, "b", t)
  {
    registry, ca := JoinAlone(a, g, "a", t);
    JoinSecond(registry.groups, g, a, b, Rejoined(None, "b", t));
    cb := new Connection("b", registry);
    cb.OnJoinGroup(b, g, t);
  }

  /** `a` and `b` share `g`, and `a` has turned sharing off. */
  method JoinPairHidden(a: string, b: string, g: string, t: int) returns (registry: Registry, ca: Connection, cb: Connection)
    requires a != "" && b != "" && g != "" && a != b
    ensures fresh(registry) && fresh(ca) && fresh(cb)
    ensures ca.registry == registry && cb.registry == registry && ca.id == "a" && cb.id == "b"
    ensures ca.currentGroup == Some(g) && ca.currentUserId == Some(a)
    ensures cb.currentGroup == Some(g) && cb.currentUserId == Some(b)
    ensures registry.Valid() && registry.groups.keys == [g] && registry.groups.vals[g].keys == [a, b]
    ensures registry.groups.vals[g].vals[a] == Member(Null, Null, Null, Null, false, "a", true, t)
    ensures registry.groups.vals[g].vals[b] == Rejoined(None, "b", t)
  {
    registry, ca, cb := JoinPair(a, b, g, t);
    ca.OnToggleSharing(false);
  }

  /** `a` turns sharing off and then sends a position: the update reaches nobody. */
  method HideAndMove(a: string, b: string, g: string, lat: Scalar, lng: Scalar, t0: int, t1: int)
    returns (registry: Registry, cb: Connection, ghost pointEvents: seq<Event>)
    requires a != "" && b != "" && g != "" && a != b
    ensures fresh(registry) && fresh(cb) && cb.registry == registry
    ensures cb.currentGroup == Some(g) && cb.currentUserId == Some(b)
    ensures pointEvents == []
    ensures registry.Valid() && registry.groups.keys == [g] && registry.groups.vals[g].keys == [a, b]
    ensures registry.groups.vals[g].vals[a] == Member(lat, lng, Null, Null, false, "a", true, t1)
    ensures registry.groups.vals[g].vals[b] == Rejoined(None, "b", t0)
  {
    var ca;
    registry, ca, cb := JoinPairHidden(a, b, g, t0);
    ghost var hidden := registry.groups.vals[g].vals;
    assert ca.HasRecord() && !ca.Record().sharing;
    ghost var mark := |registry.outbox|;
    ca.OnUpdateLocation(lat, lng, Null, Null, t1);
    pointEvents := registry.outbox[mark..];
    assert registry.groups.vals[g].vals
      == hidden[a := Member(lat, lng, Null, Null, false, "a", true, t1)];
  }

  /** A member with sharing off sends no point update to the others, but still appears,
      with its new position and sharing off, in the next `group-members` list. */
  method HiddenMemberUpdate(a: string, b: string, g: string, lat: Scalar, lng: Scalar, t0: int, t1: int)
    returns (ghost pointEvents: seq<Event>, members: seq<MemberView>, ghost next: Event)
    requires a != "" && b != "" && g != "" && a != b
    ensures pointEvents == []
    ensures next == Emit(Room(g), GroupMembers(members))
    ensures |members| == 2 && members[0].userId == a && members[1].userId == b
    ensures !members[0].sharing && members[0].active && members[0].lat == lat && members[0].lng == lng
  {
    var registry, cb;
    registry, cb, pointEvents := HideAndMove(a, b, g, lat, lng, t0, t1);
    cb.OnToggleSharing(true);
    members := MembersView(registry.groups.vals[g]);
    next := registry.outbox[|registry.outbox| - 1];
  }

  /** `a` and `b` share `g`, and `a`'s connection has dropped. */
  method FirstDisconnects(a: string, b: string, g: string, t0: int, t1: int) returns (registry: Registry)
    requires a != "" && b != "" && g != "" && a != b
    ensures fresh(registry) && registry.Valid()
    ensures registry.groups.keys == [g] && registry.groups.vals[g].keys == [a, b]
    ensures registry.groups.vals[g].vals[a] == Member(Null, Null, Null, Null, true, "a", false, t1)
    ensures registry.groups.vals[g].vals[b] == Rejoined(None, "b", t0)
  {
    var ca, cb;
    registry, ca, cb := JoinPair(a, b, g, t0);
    ghost var before := registry.groups;
    ghost var offline := Member(Null, Null, Null, Null, true, "a", false, t1);
    assert ca.Record().(active := false, lastSeen := t1) == offline;
    ca.OnDisconnect(t1);
    assert registry.groups == PutMember(before, g, a, offline);
  }

  /** Losing a connection leaves the member in the group, shown as inactive. */
  method DisconnectKeepsMarker(a: string, b: string, g: string, t0: int, t1: int)
    returns (count: nat, members: seq<MemberView>)
    requires a != "" && b != "" && g != "" && a != b
    ensures count == 2
    ensures |members| == 2
    ensures members[0].userId == a && !members[0].active && members[0].lastSeen == t1
    ensures members[1].userId == b && members[1].active && members[1].lastSeen == t0
  {
    var registry := FirstDisconnects(a, b, g, t0, t1);
    var status := registry.Status();
    count := status.groups.vals[g].memberCount;
    var grp := registry.groups.vals[g];
    members := MembersView(grp);
    assert Shows(members[0], grp.vals[a]) && Shows(members[1], grp.vals[b]);
  }

  /** In a registry holding only `g` with members `a` and `b`, `a`'s leave keeps the
      group with `b` alone and produces the two notifications. */
  lemma LeaveOneOfTwo(gs: Groups, g: string, a: string, b: string, sender: string)
    requires GroupsValid(gs) && gs.keys == [g] && gs.vals[g].keys == [a, b] && a != b
    ensures var r := AfterLeave(gs, g, a);
      r.keys == [g] && g in r.vals && r.vals[g].keys == [b] && r.vals[g].vals[b] == gs.vals[g].vals[b]
    ensures var e := LeaveEvents(gs, g, a, sender);
      |e| == 2 && e[0] == Emit(RoomExcept(g, sender), MemberLeft(a))
      && e[1].to == Room(g) && e[1].payload.GroupMembers?
  {
    assert Present(gs, g, a);
    assert GroupOf(gs, g).vals.Keys != {a} by {
      assert b in GroupOf(gs, g).vals;
    }
    assert Without([b], a) == [b] by {
      assert [b][1..] == [];
    }
    assert Without([a, b], a) == [b] by {
      assert [a, b][1..] == [b];
    }
  }

  /** `a` leaves a group it shares with `b`: the others are told, and the group stays. */
  method FirstLeaves(a: string, b: string, g: string, t0: int)
    returns (registry: Registry, cb: Connection, ghost leftEvents: seq<Event>)
    requires a != "" && b != "" && g != "" && a != b
    ensures fresh(registry) && fresh(cb) && cb.registry == registry
    ensures cb.currentGroup == Some(g) && cb.currentUserId == Some(b)
    ensures |leftEvents| == 2 && leftEvents[0] == Emit(RoomExcept(g, "a"), MemberLeft(a))
    ensures leftEvents[1].to == Room(g) && leftEvents[1].payload.GroupMembers?
    ensures registry.Valid() && registry.groups.keys == [g] && registry.groups.vals[g].keys == [b]
    ensures registry.groups.vals[g].vals[b] == Rejoined(None, "b", t0)
  {
    var ca;
    registry, ca, cb := JoinPair(a, b, g, t0);
    LeaveOneOfTwo(registry.groups, g, a, b, "a");
    ghost var mark := |registry.outbox|;
    ca.OnLeaveGroup();
    leftEvents := registry.outbox[mark..];
  }

  /** An explicit leave keeps the group while someone is left; the last leave deletes it. */
  method LeaveUntilEmpty(a: string, b: string, g: string, t0: int)
    returns (ghost leftEvents: seq<Event>, remaining: seq<string>, groupsAfter: seq<string>)
    requires a != "" && b != "" && g != "" && a != b
    ensures |leftEvents| == 2 && leftEvents[0] == Emit(RoomExcept(g, "a"), MemberLeft(a))
    ensures remaining == [b]
    ensures groupsAfter == []
  {
    var registry, cb;
    registry, cb, leftEvents := FirstLeaves(a, b, g, t0);
    var status := registry.Status();
    remaining := status.groups.vals[g].members;
    ghost var before := registry.groups;
    cb.OnLeaveGroup();
    assert Without([g], g) == [];
    assert before.vals[g].vals.Keys == {b};
    status := registry.Status();
    groupsAfter := status.groups.keys;
  }

  /** Switching groups on one connection leaves the old group, which disappears when
      the user was its only member. */
  method SwitchGroup(u: string, g1: string, g2: string, t0: int, t1: int)
    returns (groupsAfter: seq<string>)
    requires u != "" && g1 != "" && g2 != "" && g1 != g2
    ensures groupsAfter == [g2]
  {
    var registry, conn := JoinAlone(u, g1, "conn", t0);
    LeaveOnly(registry.groups, g1, u);
    conn.OnJoinGroup(u, g2, t1);
    var status := registry.Status();
    groupsAfter := status.groups.keys;
  }

  /** An empty userId is falsy: the join still writes a record, but the session does not
      count as joined, so a later disconnect leaves that record active. */
  method EmptyUserIdStaysActive(g: string, t0: int, t1: int) returns (joined: bool, m: Member)
    requires g != ""
    ensures !joined
    ensures m.active && m.lastSeen == t0
  {
    var registry := new Registry();
    var conn := new Connection("conn", registry);
    conn.OnJoinGroup("", g, t0);
    conn.OnDisconnect(t1);
    joined := conn.Joined();
    m := registry.groups.vals[g].vals[""];
  }
}
