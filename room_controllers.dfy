/** The room directory: creating a direct (one-to-one) chat, which is
    idempotent per pair of users, and creating a group chat, which checks its
    name and member list before the room is stored. */
module RoomControllers {
  import opened Wrappers
  import opened Models
  import opened Database
  import Collections
  import Text

  const SelfChatMessage := "Cannot chat with yourself"
  const ServerErrorMessage := "Server error"
  const GroupNameMessage := "Group name required (min 3 chars)"
  const MinMembersMessage := "Min 2 members required"
  const DuplicateMembersMessage := "Duplicate members not allowed"
  const InvalidMembersMessage := "Invalid member IDs"

  /** The `room` of a direct-chat reply: the stored document when the room
      already existed (status 200), and only `id`, `members` and `type` when
      it was just created (status 201). */
  datatype DirectRoomBody =
    | ExistingRoom(room: Room)
    | NewRoom(id: Id, members: seq<Id>, rtype: RoomType)

  /** The direct-room lookup does not depend on the order of the pair. */
  lemma FindDirectRoomSymmetric(rooms: seq<Room>, a: Id, b: Id)
    ensures FindDirectRoom(rooms, a, b) == FindDirectRoom(rooms, b, a)
  {
    var p := (r: Room) => IsDirectBetween(r, a, b);
    var q := (r: Room) => IsDirectBetween(r, b, a);
    Collections.IndexWhereCongruent(rooms, p, rooms, q);
  }

  /** Once the pair's room has been created, the lookup finds it, from
      either side: a second request returns that same room. */
  lemma FindDirectRoomAfterCreate(rooms: seq<Room>, room: Room, a: Id, b: Id)
    requires FindDirectRoom(rooms, a, b).None?
    requires room.rtype == Direct && room.members == [a, b]
    ensures FindDirectRoom(rooms + [room], a, b) == Some(|rooms|)
    ensures FindDirectRoom(rooms + [room], b, a) == Some(|rooms|)
  {
    Collections.IndexWhereAppendNew(rooms, room, (r: Room) => IsDirectBetween(r, a, b));
    FindDirectRoomSymmetric(rooms + [room], a, b);
  }

  /** What `Room.create` is given for a new direct chat. */
  function DirectRoomFields(caller: Id, target: Id): RoomFields {
    RoomFields(None, Some("direct"), [Some(caller), Some(target)], [], None, None)
  }

  /** `createDirectChat`. A missing target id makes `toString` throw, which
      the handler reports as a server error. */
  method CreateDirectChat(db: Store, caller: Id, target: Option<Id>, now: Timestamp)
    returns (reply: Reply<DirectRoomBody>)
    requires db.Valid()
    modifies db
    ensures db.Valid()
    ensures target.None? ==> reply == Fail(500, ServerErrorMessage) && unchanged(db)
    ensures target == Some(caller) ==> reply == Fail(400, SelfChatMessage) && unchanged(db)
    ensures target.Some? && target.value != caller ==>
      var t := target.value;
      match FindDirectRoom(old(db.rooms), caller, t)
      case Some(k) =>
        reply == Ok(200, ExistingRoom(old(db.rooms)[k])) && unchanged(db)
      case None =>
        var room := Room(old(db.nextId), None, Direct, [caller, t], [], None, false, now, now);
        && reply == Ok(201, NewRoom(room.id, room.members, Direct))
        && db.rooms == old(db.rooms) + [room]
        && db.users == old(db.users) && db.messages == old(db.messages)
        && db.identities == old(db.identities)
    ensures target.Some? && target.value != caller ==>
      var k := FindDirectRoom(db.rooms, caller, target.value);
      && k.Some? && k == FindDirectRoom(db.rooms, target.value, caller)
      && (reply.body.ExistingRoom? ==> reply.body.room == db.rooms[k.value])
      && (reply.body.NewRoom? ==> reply.body.id == db.rooms[k.value].id)
  {
    if target.None? {
      return Fail(500, ServerErrorMessage);
    }
    var t := target.value;
    if t == caller {
      return Fail(400, SelfChatMessage);
    }
    FindDirectRoomSymmetric(db.rooms, caller, t);
    var existing := FindDirectRoom(db.rooms, caller, t);
    if existing.Some? {
      return Ok(200, ExistingRoom(db.rooms[existing.value]));
    }
    var created := db.InsertRoom(DirectRoomFields(caller, t), now);
    var room := created.value;
    FindDirectRoomAfterCreate(old(db.rooms), room, caller, t);
    reply := Ok(201, NewRoom(room.id, room.members, room.rtype));
  }

  /** The `name` check: present, and at least three characters once trimmed. */
  predicate GroupNameOk(name: Option<string>) {
    name.Some? && |Text.Trim(name.value)| >= 3
  }

  /** The `members` check: a list of at least two ids. */
  predicate MemberListOk(memberIds: Option<seq<Id>>) {
    memberIds.Some? && |memberIds.value| >= 2
  }

  predicate AllUsersExist(users: seq<User>, ids: seq<Id>) {
    forall i :: 0 <= i < |ids| ==> FindUser(users, ids[i]).Some?
  }

  /** How many users `User.find({ _id: { $in: ids } })` returns. */
  function CountUsersAmong(users: seq<User>, ids: seq<Id>): nat {
    if users == [] then 0
    else (if users[0].id in ids then 1 else 0) + CountUsersAmong(users[1..], ids)
  }

  /** How many users carry the id `x`. */
  function CountWithId(users: seq<User>, x: Id): nat {
    if users == [] then 0
    else (if users[0].id == x then 1 else 0) + CountWithId(users[1..], x)
  }

  lemma {:induction false} CountUsersAmongSnoc(users: seq<User>, ids: seq<Id>, x: Id)
    requires x !in ids
    ensures CountUsersAmong(users, ids + [x]) == CountUsersAmong(users, ids) + CountWithId(users, x)
  {
    if users != [] {
      CountUsersAmongSnoc(users[1..], ids, x);
    }
  }

  lemma {:induction false} CountWithIdDistinct(users: seq<User>, x: Id)
    requires DistinctUserIds(users)
    ensures CountWithId(users, x) == if FindUser(users, x).Some? then 1 else 0
  {
    if users != [] {
      var rest := users[1..];
      CountWithIdDistinct(rest, x);
      if users[0].id == x {
        forall j | 0 <= j < |rest| ensures rest[j].id != x {
          assert rest[j] == users[j + 1];
        }
        assert FindUser(rest, x).None?;
      } else {
        assert FindUser(users, x).Some? <==> FindUser(rest, x).Some?;
      }
    }
  }

  /** The existence check the group controller performs: with distinct user
      ids and a duplicate-free id list, the count matches exactly when every
      id names a user. */
  lemma {:induction false} CountUsersAmongIff(users: seq<User>, ids: seq<Id>)
    requires DistinctUserIds(users)
    requires Collections.NoDuplicates(ids)
    ensures CountUsersAmong(users, ids) <= |ids|
    ensures CountUsersAmong(users, ids) == |ids| <==> AllUsersExist(users, ids)
  {
    if ids == [] {
      assert CountUsersAmong(users, []) == 0 by { CountUsersAmongNone(users); }
    } else {
      var init, x := ids[..|ids| - 1], ids[|ids| - 1];
      assert ids == init + [x];
      assert x !in init by {
        forall i | 0 <= i < |init| ensures init[i] != x {
          assert init[i] == ids[i];
        }
      }
      assert Collections.NoDuplicates(init) by {
        forall i, j | 0 <= i < j < |init| ensures init[i] != init[j] {
          assert init[i] == ids[i] && init[j] == ids[j];
        }
      }
      CountUsersAmongIff(users, init);
      CountUsersAmongSnoc(users, init, x);
      CountWithIdDistinct(users, x);
      assert AllUsersExist(users, ids) <==> AllUsersExist(users, init) && FindUser(users, x).Some? by {
        if AllUsersExist(users, init) && FindUser(users, x).Some? {
          forall i | 0 <= i < |ids| ensures FindUser(users, ids[i]).Some? {
            if i < |init| {
              assert ids[i] == init[i];
            }
          }
        }
        if AllUsersExist(users, ids) {
          forall i | 0 <= i < |init| ensures FindUser(users, init[i]).Some? {
            assert init[i] == ids[i];
          }
          assert FindUser(users, ids[|ids| - 1]).Some?;
        }
      }
    }
  }

  lemma {:induction false} CountUsersAmongNone(users: seq<User>)
    ensures CountUsersAmong(users, []) == 0
  {
    if users != [] {
      CountUsersAmongNone(users[1..]);
    }
  }

  /** All four checks of `createGroupChat` pass. */
  predicate GroupRequestValid(users: seq<User>, caller: Id, name: Option<string>, memberIds: Option<seq<Id>>) {
    && GroupNameOk(name)
    && MemberListOk(memberIds)
    && Collections.NoDuplicates(memberIds.value + [caller])
    && AllUsersExist(users, memberIds.value + [caller])
  }

  /** The trimmed name and the member list of a group about to be created. */
  datatype GroupPlan = GroupPlan(name: string, members: seq<Id>)

  /** The validation half of `createGroupChat`, in the order the handler
      checks: name, list size, duplicates (memberIds with the creator must
      stay as long once deduplicated), then that every id is a user. */
  function ValidateGroup(users: seq<User>, caller: Id, name: Option<string>, memberIds: Option<seq<Id>>)
    : (r: Reply<GroupPlan>)
    ensures !GroupNameOk(name) ==> r == Fail(400, GroupNameMessage)
    ensures GroupNameOk(name) && !MemberListOk(memberIds) ==> r == Fail(400, MinMembersMessage)
    ensures GroupNameOk(name) && MemberListOk(memberIds) && !Collections.NoDuplicates(memberIds.value + [caller])
      ==> r == Fail(400, DuplicateMembersMessage)
    ensures DistinctUserIds(users) && GroupNameOk(name) && MemberListOk(memberIds)
      && Collections.NoDuplicates(memberIds.value + [caller]) && !AllUsersExist(users, memberIds.value + [caller])
      ==> r == Fail(400, InvalidMembersMessage)
    ensures DistinctUserIds(users) ==> (r.Ok? <==> GroupRequestValid(users, caller, name, memberIds))
    ensures r.Ok? ==>
      && GroupNameOk(name) && MemberListOk(memberIds)
      && r == Ok(201, GroupPlan(Text.Trim(name.value), memberIds.value + [caller]))
      && |r.body.members| >= 3
      && Collections.NoDuplicates(r.body.members)
  {
    if name.None? || |Text.Trim(name.value)| < 3 then Fail(400, GroupNameMessage)
    else if memberIds.None? || |memberIds.value| < 2 then Fail(400, MinMembersMessage)
    else
      var all := memberIds.value + [caller];
      var unique := Collections.Dedup(all);
      Collections.DedupKeepsLengthIff(all);
      if |unique| != |memberIds.value| + 1 then Fail(400, DuplicateMembersMessage)
      else
        Collections.DedupOfDistinct(all);
        assert DistinctUserIds(users) ==>
          (CountUsersAmong(users, unique) == |unique| <==> AllUsersExist(users, unique)) by {
          if DistinctUserIds(users) {
            CountUsersAmongIff(users, unique);
          }
        }
        if CountUsersAmong(users, unique) != |unique| then Fail(400, InvalidMembersMessage)
        else Ok(201, GroupPlan(Text.Trim(name.value), unique))
  }

  /** The `room` of a group-creation reply. */
  datatype GroupRoomBody = GroupRoomBody(
    id: Id, name: Option<string>, members: seq<Id>, admins: seq<Id>, rtype: RoomType)

  function GroupRoomFields(plan: GroupPlan, caller: Id): RoomFields {
    RoomFields(Some(plan.name), Some("group"), seq(|plan.members|, i requires 0 <= i < |plan.members| => Some(plan.members[i])),
               [caller], None, None)
  }

  /** The fields of a valid plan make a well-formed group room with the
      creator as its only admin. */
  lemma GroupRoomCreated(id: Id, plan: GroupPlan, caller: Id, now: Timestamp)
    requires |plan.members| >= 3 && Collections.NoDuplicates(plan.members)
    requires plan.members[|plan.members| - 1] == caller
    ensures var r := CreateRoom(id, GroupRoomFields(plan, caller), now);
      && r == Success(Room(id, Some(plan.name), Group, plan.members, [caller], None, false, now, now))
      && WellFormedRoom(r.value) && !IsDirectPair(r.value)
  {
    var r := CreateRoom(id, GroupRoomFields(plan, caller), now);
    assert r.value.members == plan.members;
  }

  /** `createGroupChat`: on a valid request, a group room with the trimmed
      name, the listed members followed by the creator, and the creator as
      its only admin. */
  method CreateGroupChat(db: Store, caller: Id, name: Option<string>, memberIds: Option<seq<Id>>, now: Timestamp)
    returns (reply: Reply<GroupRoomBody>)
    requires db.Valid()
    modifies db
    ensures db.Valid()
    ensures ValidateGroup(old(db.users), caller, name, memberIds).Fail? ==>
      var v := ValidateGroup(old(db.users), caller, name, memberIds);
      reply == Fail(v.status, v.message) && unchanged(db)
    ensures ValidateGroup(old(db.users), caller, name, memberIds).Ok? ==>
      var plan := ValidateGroup(old(db.users), caller, name, memberIds).body;
      var room := Room(old(db.nextId), Some(plan.name), Group, plan.members, [caller], None, false, now, now);
      && reply == Ok(201, GroupRoomBody(room.id, room.name, room.members, room.admins, Group))
      && db.rooms == old(db.rooms) + [room]
      && db.users == old(db.users) && db.messages == old(db.messages)
      && db.identities == old(db.identities)
  {
    var v := ValidateGroup(db.users, caller, name, memberIds);
    if v.Fail? {
      return Fail(v.status, v.message);
    }
    var plan := v.body;
    var fields := GroupRoomFields(plan, caller);
    GroupRoomCreated(db.nextId, plan, caller, now);
    var created := db.InsertRoom(fields, now);
    var room := created.value;
    reply := Ok(201, GroupRoomBody(room.id, room.name, room.members, room.admins, room.rtype));
  }
}
