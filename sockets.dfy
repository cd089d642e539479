/** One Socket.IO connection: the closure variables `currentUserId` and
    `currentGroup` of the `connection` callback, and the five event handlers
    that read and change the shared registry through them. */
module Sockets {
  import opened JsObject
  import opened Presence

  /** JavaScript truthiness of a session variable: `null` and `""` are both falsy. */
  predicate Truthy(v: Option<string>) {
    v.Some? && v.value != ""
  }

  /** The registry has the same groups and members, in the same order, as before:
      only field values may differ. */
  ghost predicate SameMembers(before: Groups, after: Groups) {
    && after.keys == before.keys
    && forall h :: h in before.vals ==> h in after.vals && after.vals[h].keys == before.vals[h].keys
  }

  /** Overwriting an existing record keeps every group and member in place. */
  lemma KeepsMembers(gs: Groups, g: string, u: string, m: Member)
    requires GroupsValid(gs) && Present(gs, g, u)
    ensures SameMembers(gs, PutMember(gs, g, u, m))
  {
  }

  class Connection {
    /** `socket.id` */
    const id: string
    /** The process-wide `groups` object, shared by every connection. */
    const registry: Registry
    var currentUserId: Option<string>
    var currentGroup: Option<string>

    constructor (id: string, registry: Registry)
      ensures this.id == id && this.registry == registry
      ensures currentUserId == None && currentGroup == None
    {
      this.id := id;
      this.registry := registry;
      currentUserId := None;
      currentGroup := None;
    }

    /** `currentGroup && currentUserId` */
    predicate Joined()
      reads this
    {
      Truthy(currentGroup) && Truthy(currentUserId)
    }

    /** The session is joined and `groups[currentGroup]?.[currentUserId]` is a record. */
    predicate HasRecord()
      reads this, registry
    {
      Joined() && Present(registry.groups, currentGroup.value, currentUserId.value)
    }

    function Record(): Member
      reads this, registry
      requires HasRecord()
    {
      registry.groups.vals[currentGroup.value].vals[currentUserId.value]
    }

    /** `join-group`: leave the session's old pair if it has one, then write the record
        (keeping position, motion and sharing of an existing one) and broadcast. */
    method OnJoinGroup(userId: string, groupName: string, now: int)
      requires registry.Valid()
      modifies this, registry
      ensures registry.Valid()
      ensures currentUserId == Some(userId) && currentGroup == Some(groupName)
      ensures
        var left := if old(Joined())
          then AfterLeave(old(registry.groups), old(currentGroup).value, old(currentUserId).value)
          else old(registry.groups);
        registry.groups == PutMember(left, groupName, userId, Rejoined(GroupOf(left, groupName).Get(userId), id, now))
      ensures registry.outbox == old(registry.outbox)
        + (if old(Joined())
           then LeaveEvents(old(registry.groups), old(currentGroup).value, old(currentUserId).value, id)
           else [])
        + Broadcast(registry.groups, groupName)
    {
      ghost var leaving := if Joined()
        then LeaveEvents(registry.groups, currentGroup.value, currentUserId.value, id)
        else [];
      if Joined() {
        registry.LeaveGroup(currentGroup.value, currentUserId.value, id);
      }
      ghost var mid := registry.outbox;
      assert mid == old(registry.outbox) + leaving;
      currentUserId := Some(userId);
      currentGroup := Some(groupName);
      registry.WriteRecord(groupName, userId, id, now);
      registry.BroadcastGroupMembers(groupName);
      assert registry.outbox == mid + Broadcast(registry.groups, groupName);
    }

    /** `update-location`: dropped unless the session's record exists; otherwise it
        overwrites position and motion, marks the member active, and tells the others
        only when the member is sharing. */
    method OnUpdateLocation(lat: Scalar, lng: Scalar, speed: Scalar, heading: Scalar, now: int)
      requires registry.Valid()
      modifies registry
      ensures registry.Valid()
      ensures !old(HasRecord()) ==>
        registry.groups == old(registry.groups) && registry.outbox == old(registry.outbox)
      ensures old(HasRecord()) ==>
        var user := old(Record());
        && SameMembers(old(registry.groups), registry.groups)
        && registry.groups == PutMember(old(registry.groups), currentGroup.value, currentUserId.value,
             user.(lat := lat, lng := lng, speed := speed, heading := heading, active := true, lastSeen := now))
        && registry.outbox == old(registry.outbox)
             + if user.sharing
               then [Emit(RoomExcept(currentGroup.value, id),
                          LocationUpdate(currentUserId.value, lat, lng, true, speed, heading))]
               else []
    {
      // both early returns of the handler: no session, or no record for it
      if HasRecord() {
        var g, u := currentGroup.value, currentUserId.value;
        var gs := registry.groups;
        var user := gs.vals[g].vals[u];
        assert user == old(Record());
        user := user.(lat := lat, lng := lng, speed := speed, heading := heading, active := true, lastSeen := now);
        registry.groups := PutMember(gs, g, u, user);
        KeepsMembers(gs, g, u, user);
        ghost var sent := if user.sharing then [Emit(RoomExcept(g, id), LocationUpdate(u, lat, lng, true, speed, heading))] else [];
        if user.sharing {
          registry.outbox := registry.outbox + [Emit(RoomExcept(g, id), LocationUpdate(u, lat, lng, true, speed, heading))];
        }
        assert registry.outbox == old(registry.outbox) + sent;
      }
    }

    /** `toggle-sharing`: dropped unless the session's record exists; otherwise it sets
        only the sharing flag, tells the others when sharing was turned off, and broadcasts. */
    method OnToggleSharing(sharing: bool)
      requires registry.Valid()
      modifies registry
      ensures registry.Valid()
      ensures !old(HasRecord()) ==>
        registry.groups == old(registry.groups) && registry.outbox == old(registry.outbox)
      ensures old(HasRecord()) ==>
        && SameMembers(old(registry.groups), registry.groups)
        && registry.groups == PutMember(old(registry.groups), currentGroup.value, currentUserId.value,
             old(Record()).(sharing := sharing))
        && registry.outbox == old(registry.outbox)
             + (if !sharing then [Emit(RoomExcept(currentGroup.value, id), MemberHidden(currentUserId.value))] else [])
             + Broadcast(registry.groups, currentGroup.value)
    {
      // both early returns of the handler: no session, or no record for it
      if HasRecord() {
        var g, u := currentGroup.value, currentUserId.value;
        var gs := registry.groups;
        var user := gs.vals[g].vals[u];
        assert user == old(Record());
        registry.groups := PutMember(gs, g, u, user.(sharing := sharing));
        KeepsMembers(gs, g, u, user.(sharing := sharing));
        ghost var hidden := if !sharing then [Emit(RoomExcept(g, id), MemberHidden(u))] else [];
        if !sharing {
          registry.outbox := registry.outbox + [Emit(RoomExcept(g, id), MemberHidden(u))];
        }
        ghost var mid := registry.outbox;
        assert mid == old(registry.outbox) + hidden;
        registry.BroadcastGroupMembers(g);
        assert registry.outbox == mid + Broadcast(registry.groups, g);
      }
    }

    /** `disconnect`: the record is kept and marked inactive, never removed. */
    method OnDisconnect(now: int)
      requires registry.Valid()
      modifies registry
      ensures registry.Valid()
      ensures SameMembers(old(registry.groups), registry.groups)
      ensures !old(HasRecord()) ==>
        registry.groups == old(registry.groups) && registry.outbox == old(registry.outbox)
      ensures old(HasRecord()) ==>
        && registry.groups == PutMember(old(registry.groups), currentGroup.value, currentUserId.value,
             old(Record()).(active := false, lastSeen := now))
        && registry.outbox == old(registry.outbox) + Broadcast(registry.groups, currentGroup.value)
    {
      if HasRecord() {
        var g, u := currentGroup.value, currentUserId.value;
        var gs := registry.groups;
        var user := gs.vals[g].vals[u];
        assert user == old(Record());
        registry.groups := PutMember(gs, g, u, user.(active := false, lastSeen := now));
        KeepsMembers(gs, g, u, user.(active := false, lastSeen := now));
        registry.BroadcastGroupMembers(g);
      }
    }

    /** `leave-group`: when joined, `leaveGroup` on the session's pair and back to unjoined;
        otherwise nothing happens. */
    method OnLeaveGroup()
      requires registry.Valid()
      modifies this, registry
      ensures registry.Valid()
      ensures old(Joined()) ==>
        && registry.groups == AfterLeave(old(registry.groups), old(currentGroup).value, old(currentUserId).value)
        && registry.outbox == old(registry.outbox)
             + LeaveEvents(old(registry.groups), old(currentGroup).value, old(currentUserId).value, id)
        && currentUserId == None && currentGroup == None
      ensures !old(Joined()) ==>
        && registry.groups == old(registry.groups) && registry.outbox == old(registry.outbox)
        && currentUserId == old(currentUserId) && currentGroup == old(currentGroup)
    {
      if Joined() {
        registry.LeaveGroup(currentGroup.value, currentUserId.value, id);
        currentUserId := None;
        currentGroup := None;
      }
    }
  }
}
