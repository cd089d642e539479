/** The in-memory presence registry: group name -> (userId -> member record),
    the `leaveGroup` and `broadcastGroupMembers` helpers, and the read-only
    `/api/status` snapshot. What the server emits is recorded in a ghost
    outbox; delivery itself belongs to the Socket.IO transport. */
module Presence {
  import opened JsObject

  /** A latitude, longitude, speed or heading as the client sent it.
      The server never computes on these values, it only copies them. */
  datatype Scalar = Null | Undefined | Num(value: real)

  /** A member record as stored in `groups[groupName][userId]`. */
  datatype Member = Member(
    lat: Scalar, lng: Scalar, speed: Scalar, heading: Scalar,
    sharing: bool, socketId: string, active: bool, lastSeen: int)

  /** One entry of the `group-members` list: the record without its socket id. */
  datatype MemberView = MemberView(
    userId: string, lat: Scalar, lng: Scalar, sharing: bool,
    speed: Scalar, heading: Scalar, active: bool, lastSeen: int)

  /** `io.to(room)` reaches the whole room; `socket.to(room)` every socket in it but the sender. */
  datatype Target = Room(room: string) | RoomExcept(room: string, sender: string)

  datatype Payload =
    | GroupMembers(members: seq<MemberView>)
    | LocationUpdate(userId: string, lat: Scalar, lng: Scalar, sharing: bool, speed: Scalar, heading: Scalar)
    | MemberHidden(userId: string)
    | MemberLeft(userId: string)

  datatype Event = Emit(to: Target, payload: Payload)

  type Group = Obj<Member>
  type Groups = Obj<Group>

  /** The registry's invariant: both levels are well-formed objects and no group is empty. */
  ghost predicate GroupsValid(gs: Groups) {
    && gs.Valid()
    && forall g :: g in gs.vals ==> gs.vals[g].Valid() && gs.vals[g].vals != map[]
  }

  /** `groups[g]`, with a missing group read as `{}`. */
  function GroupOf(gs: Groups, g: string): Group {
    if g in gs.vals then gs.vals[g] else Empty()
  }

  /** `groups[g]?.[u]` is a record. */
  predicate Present(gs: Groups, g: string, u: string) {
    g in gs.vals && u in gs.vals[g].vals
  }

  /** The record written by `join-group`: position, motion and sharing come from the
      existing record if there is one, otherwise they are null and sharing is on. */
  function Rejoined(existing: Option<Member>, socketId: string, now: int): (m: Member)
    ensures m.active && m.lastSeen == now && m.socketId == socketId
    ensures existing.Some? ==>
      && m.lat == existing.value.lat && m.lng == existing.value.lng
      && m.speed == existing.value.speed && m.heading == existing.value.heading
      && m.sharing == existing.value.sharing
    ensures existing.None? ==>
      m.lat == Null && m.lng == Null && m.speed == Null && m.heading == Null && m.sharing
  {
    match existing
    case Some(e) => Member(e.lat, e.lng, e.speed, e.heading, e.sharing, socketId, true, now)
    case None => Member(Null, Null, Null, Null, true, socketId, true, now)
  }

  /** `groups[g][u] = m`, creating `groups[g]` first when it is missing.
      Only that one record changes; keys keep their enumeration positions. */
  function PutMember(gs: Groups, g: string, u: string, m: Member): (r: Groups)
    requires GroupsValid(gs)
    ensures GroupsValid(r)
    ensures r.vals.Keys == gs.vals.Keys + {g}
    ensures r.vals[g].vals == GroupOf(gs, g).vals[u := m]
    ensures forall h :: h in gs.vals && h != g ==> r.vals[h] == gs.vals[h]
    ensures r.keys == if g in gs.vals then gs.keys else gs.keys + [g]
    ensures r.vals[g].keys ==
      if u in GroupOf(gs, g).vals then GroupOf(gs, g).keys else GroupOf(gs, g).keys + [u]
  {
    gs.Put(g, GroupOf(gs, g).Put(u, m))
  }

  /** Creating the group as `{}` and then assigning into it is the same as `PutMember`. */
  lemma CreateThenPut(gs: Groups, g: string, u: string, m: Member)
    requires GroupsValid(gs)
    ensures var created := if g in gs.vals then gs else gs.Put(g, Empty());
      created.Put(g, created.vals[g].Put(u, m)) == PutMember(gs, g, u, m)
  {
    if g !in gs.vals {
      var inner := Empty<Member>().Put(u, m);
      var created := gs.Put(g, Empty());
      assert created == Obj(gs.keys + [g], gs.vals[g := Empty()]);
      assert created.Put(g, inner) == Obj(gs.keys + [g], gs.vals[g := inner]);
    }
  }

  /** The registry after `leaveGroup(g, u)`: the record is deleted, and the group with it
      when it was the last one; an absent record leaves everything as it was. */
  function AfterLeave(gs: Groups, g: string, u: string): (r: Groups)
    requires GroupsValid(gs)
    ensures GroupsValid(r)
    ensures !Present(gs, g, u) ==> r == gs
    ensures Present(gs, g, u) ==> GroupOf(r, g).vals == GroupOf(gs, g).vals - {u}
    ensures Present(gs, g, u) ==> (g in r.vals <==> GroupOf(gs, g).vals.Keys != {u})
    ensures forall h :: h != g ==> (h in r.vals <==> h in gs.vals) && GroupOf(r, h) == GroupOf(gs, h)
    ensures g in r.vals ==> r.keys == gs.keys && r.vals[g].keys == Without(gs.vals[g].keys, u)
    ensures g !in r.vals ==> r.keys == Without(gs.keys, g)
  {
    if !Present(gs, g, u) then
      WithoutAbsent(gs.keys, g);
      WithoutAbsent(GroupOf(gs, g).keys, u);
      gs
    else
      var rest := gs.vals[g].Delete(u);
      if rest.Size() == 0 then
        DeleteGroupValid(gs, g);
        gs.Delete(g)
      else
        PutGroupValid(gs, g, rest);
        gs.Put(g, rest)
  }

  /** Every group read from a well-formed registry, present or not, is a well-formed object. */
  lemma GroupOfValid(gs: Groups, g: string)
    requires GroupsValid(gs)
    ensures GroupOf(gs, g).Valid()
  {
  }

  /** Storing a non-empty group keeps the registry's invariant and every other group. */
  lemma PutGroupValid(gs: Groups, g: string, grp: Group)
    requires GroupsValid(gs) && grp.Valid() && grp.vals != map[]
    ensures GroupsValid(gs.Put(g, grp))
    ensures forall h :: h != g ==> (h in gs.Put(g, grp).vals <==> h in gs.vals)
    ensures forall h :: h != g ==> GroupOf(gs.Put(g, grp), h) == GroupOf(gs, h)
  {
  }

  /** Deleting a group keeps the registry's invariant and every other group. */
  lemma DeleteGroupValid(gs: Groups, g: string)
    requires GroupsValid(gs)
    ensures GroupsValid(gs.Delete(g))
    ensures forall h :: h != g ==> (h in gs.Delete(g).vals <==> h in gs.vals)
    ensures forall h :: h != g ==> GroupOf(gs.Delete(g), h) == GroupOf(gs, h)
  {
  }

  /** `Object.entries(group).map(...)`: one view per entry, in order. */
  function ViewsOf(entries: seq<(string, Member)>): (r: seq<MemberView>)
    ensures |r| == |entries|
    ensures forall i :: 0 <= i < |r| ==> r[i].userId == entries[i].0 && Shows(r[i], entries[i].1)
  {
    if entries == [] then []
    else [View(entries[0].0, entries[0].1)] + ViewsOf(entries[1..])
  }

  /** The arrow function of the `.map`: the entry `[userId, data]` as a list item,
      every field of the record but `socketId`. */
  function View(u: string, m: Member): MemberView {
    MemberView(u, m.lat, m.lng, m.sharing, m.speed, m.heading, m.active, m.lastSeen)
  }

  /** The view copies every field of the record except its socket id. */
  predicate Shows(v: MemberView, m: Member) {
    && v.lat == m.lat && v.lng == m.lng && v.sharing == m.sharing
    && v.speed == m.speed && v.heading == m.heading
    && v.active == m.active && v.lastSeen == m.lastSeen
  }

  /** The `members` list of a `group-members` broadcast: one entry per key, in
      enumeration order, each a copy of its record without the socket id. */
  function MembersView(grp: Group): (r: seq<MemberView>)
    requires grp.Valid()
    ensures |r| == |grp.keys|
    ensures forall i :: 0 <= i < |r| ==> r[i].userId == grp.keys[i] && Shows(r[i], grp.vals[grp.keys[i]])
  {
    ViewsOf(grp.Entries())
  }

  /** Every member of the group is listed exactly once, and nothing else is. */
  lemma MembersViewListsEachOnce(grp: Group)
    requires grp.Valid()
    ensures |MembersView(grp)| == |grp.vals|
    ensures forall u :: u in grp.vals <==> exists i :: 0 <= i < |MembersView(grp)| && MembersView(grp)[i].userId == u
    ensures forall i, j :: 0 <= i < j < |MembersView(grp)| ==> MembersView(grp)[i].userId != MembersView(grp)[j].userId
  {
    var r := MembersView(grp);
    assert |r| == grp.Size();
    forall u | u in grp.vals ensures exists i :: 0 <= i < |r| && r[i].userId == u {
      var i :| 0 <= i < |grp.keys| && grp.keys[i] == u;
      assert r[i].userId == u;
    }
    forall i | 0 <= i < |r| ensures r[i].userId in grp.vals {
      assert r[i].userId == grp.keys[i];
    }
    forall i, j | 0 <= i < j < |r| ensures r[i].userId != r[j].userId {
      assert r[i].userId == grp.keys[i] && r[j].userId == grp.keys[j];
    }
  }

  /** What `broadcastGroupMembers(g)` emits: nothing when the group is gone,
      otherwise one `group-members` event to the whole room. */
  function Broadcast(gs: Groups, g: string): (r: seq<Event>)
    requires GroupsValid(gs)
    ensures g !in gs.vals ==> r == []
    ensures g in gs.vals ==>
      |r| == 1 && r[0].to == Room(g) && r[0].payload.GroupMembers?
      && r[0].payload.members == MembersView(gs.vals[g])
  {
    if g !in gs.vals then [] else [Emit(Room(g), GroupMembers(MembersView(gs.vals[g])))]
  }

  /** What `leaveGroup(g, u)` emits from socket `sender`: nothing when the record is absent
      or was the group's last one; otherwise `member-left` to the others, then a
      broadcast to the whole room of a list that no longer holds `u`. */
  function LeaveEvents(gs: Groups, g: string, u: string, sender: string): (r: seq<Event>)
    requires GroupsValid(gs)
    ensures r == [] <==> !Present(gs, g, u) || GroupOf(gs, g).vals.Keys == {u}
    ensures r != [] ==>
      && |r| == 2
      && r[0] == Emit(RoomExcept(g, sender), MemberLeft(u))
      && r[1].to == Room(g) && r[1].payload.GroupMembers?
      && |r[1].payload.members| == |GroupOf(gs, g).vals| - 1
      && forall i :: 0 <= i < |r[1].payload.members| ==> r[1].payload.members[i].userId != u
    ensures r != [] ==> r[1].payload.members == MembersView(AfterLeave(gs, g, u).vals[g])
  {
    var after := AfterLeave(gs, g, u);
    if Present(gs, g, u) && g in after.vals then
      [Emit(RoomExcept(g, sender), MemberLeft(u))] + Broadcast(after, g)
    else []
  }

  /** Regrouping a concatenation; a separate lemma keeps `Registry.LeaveGroup`'s proof small. */
  lemma ConcatAssoc<T>(a: seq<T>, b: seq<T>, c: seq<T>)
    ensures a + b + c == a + (b + c)
  {
  }

  /** `leaveGroup` spelled out step by step: delete the record, then either drop the
      emptied group or store what is left and emit. */
  lemma LeaveSteps(gs: Groups, g: string, u: string, sender: string)
    requires GroupsValid(gs) && Present(gs, g, u)
    ensures var rest := gs.vals[g].Delete(u);
      && (rest.Size() == 0 ==> AfterLeave(gs, g, u) == gs.Delete(g) && LeaveEvents(gs, g, u, sender) == [])
      && (rest.Size() != 0 ==>
            && AfterLeave(gs, g, u) == gs.Put(g, rest)
            && LeaveEvents(gs, g, u, sender)
               == [Emit(RoomExcept(g, sender), MemberLeft(u))] + Broadcast(gs.Put(g, rest), g))
  {
  }

  /** Every group's key list is as long as its member map, and no group is empty. */
  lemma GroupSizes(gs: Groups)
    requires GroupsValid(gs)
    ensures forall g :: g in gs.vals ==> |gs.vals[g].vals| == |gs.vals[g].keys| && |gs.vals[g].vals| >= 1
  {
    forall g | g in gs.vals
      ensures |gs.vals[g].vals| == |gs.vals[g].keys| && |gs.vals[g].vals| >= 1
    {
      var n := gs.vals[g].Size();
    }
  }

  /** One group of the `/api/status` snapshot. */
  datatype GroupStatus = GroupStatus(memberCount: nat, members: seq<string>)

  /** The `/api/status` response body. */
  datatype StatusBody = StatusBody(status: string, groups: Obj<GroupStatus>)

  class Registry {
    var groups: Groups
    ghost var outbox: seq<Event>

    ghost predicate Valid()
      reads this
    {
      GroupsValid(groups)
    }

    constructor ()
      ensures Valid() && groups == Empty() && outbox == []
    {
      groups := Empty();
      outbox := [];
    }

    /** The record-writing part of `join-group`: create `groups[groupName]` as `{}` when it
        is missing, then assign the user's record, keeping what an existing record had. */
    method WriteRecord(groupName: string, userId: string, socketId: string, now: int)
      requires Valid()
      modifies this`groups
      ensures Valid()
      ensures groups == PutMember(old(groups), groupName, userId,
        Rejoined(GroupOf(old(groups), groupName).Get(userId), socketId, now))
    {
      ghost var before := groups;
      GroupOfValid(before, groupName);
      CreateThenPut(before, groupName, userId, Rejoined(GroupOf(before, groupName).Get(userId), socketId, now));
      if groupName !in groups.vals {
        groups := groups.Put(groupName, Empty());
      }
      var grp := groups.vals[groupName];
      assert grp == GroupOf(before, groupName);
      var existingUser := grp.Get(userId);
      groups := groups.Put(groupName, grp.Put(userId, Rejoined(existingUser, socketId, now)));
    }

    /** `broadcastGroupMembers(groupName)` */
    method BroadcastGroupMembers(groupName: string)
      requires Valid()
      modifies this`outbox
      ensures outbox == old(outbox) + Broadcast(groups, groupName)
    {
      if groupName !in groups.vals {
        return;
      }
      var members := MembersView(groups.vals[groupName]);
      outbox := outbox + [Emit(Room(groupName), GroupMembers(members))];
    }

    /** `leaveGroup(groupName, userId, socket)`, `socketId` being the socket's id. */
    method LeaveGroup(groupName: string, userId: string, socketId: string)
      requires Valid()
      modifies this
      ensures Valid()
      ensures groups == AfterLeave(old(groups), groupName, userId)
      ensures outbox == old(outbox) + LeaveEvents(old(groups), groupName, userId, socketId)
    {
      var gs := groups;
      if Present(gs, groupName, userId) {
        // `delete groups[groupName][userId]`, then drop the group if that emptied it
        var rest := gs.vals[groupName].Delete(userId);
        LeaveSteps(gs, groupName, userId, socketId);
        if rest.Size() == 0 {
          groups := gs.Delete(groupName);
        } else {
          groups := gs.Put(groupName, rest);
          ghost var left := [Emit(RoomExcept(groupName, socketId), MemberLeft(userId))];
          outbox := outbox + left;
          BroadcastGroupMembers(groupName);
          assert outbox == old(outbox) + left + Broadcast(groups, groupName);
          ConcatAssoc(old(outbox), left, Broadcast(groups, groupName));
        }
      }
    }

    /** `GET /api/status`: for every group, in enumeration order, its member count and userIds. */
    method Status() returns (body: StatusBody)
      requires Valid()
      ensures body.status == "ok"
      ensures body.groups.Valid() && body.groups.keys == groups.keys
      ensures forall g :: g in groups.vals ==>
        && g in body.groups.vals
        && body.groups.vals[g].members == groups.vals[g].keys
        && body.groups.vals[g].memberCount == |groups.vals[g].vals|
        && body.groups.vals[g].memberCount == |body.groups.vals[g].members|
        && body.groups.vals[g].memberCount >= 1
    {
      var gs := groups;
      var status := Empty<GroupStatus>();
      var entries := gs.Entries();
      var i := 0;
      while i < |entries|
        invariant 0 <= i <= |entries|
        invariant status.Valid() && status.keys == gs.keys[..i]
        invariant forall g :: g in status.vals ==>
          && g in gs.vals
          && status.vals[g].members == gs.vals[g].keys
          && status.vals[g].memberCount == |gs.vals[g].vals|
      {
        var (groupName, members) := entries[i];
        NotEarlier(gs.keys, i);
        status := status.Put(groupName, GroupStatus(members.Size(), members.keys));
        assert gs.keys[..i + 1] == gs.keys[..i] + [groupName];
        i := i + 1;
      }
      assert gs.keys[..i] == gs.keys;
      GroupSizes(gs);
      body := StatusBody("ok", status);
    }
  }
}
