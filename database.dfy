/** The persistent collections, held in memory: users, rooms, messages and
    anonymous identities. Each MongoDB query the controllers issue is a
    search over one of these sequences; each write is a method that appends
    or replaces one record and keeps the collection invariants. */
module Database {
  import opened Wrappers
  import opened Models
  import Collections

  predicate DistinctUserIds(users: seq<User>) {
    forall i, j :: 0 <= i < j < |users| ==> users[i].id != users[j].id
  }

  predicate DistinctRoomIds(rooms: seq<Room>) {
    forall i, j :: 0 <= i < j < |rooms| ==> rooms[i].id != rooms[j].id
  }

  predicate DistinctMessageIds(messages: seq<Message>) {
    forall i, j :: 0 <= i < j < |messages| ==> messages[i].id != messages[j].id
  }

  predicate DistinctIdentityIds(identities: seq<AnonymousIdentity>) {
    forall i, j :: 0 <= i < j < |identities| ==> identities[i].id != identities[j].id
  }

  /** `User.findById(id)`. */
  function FindUser(users: seq<User>, id: Id): Option<nat> {
    Collections.IndexWhere(users, (u: User) => u.id == id)
  }

  /** `Message.findById(id)`. */
  function FindMessage(messages: seq<Message>, id: Id): Option<nat> {
    Collections.IndexWhere(messages, (m: Message) => m.id == id)
  }

  /** `AnonymousIdentity.findById(id)`. */
  function FindIdentity(identities: seq<AnonymousIdentity>, id: Id): Option<nat> {
    Collections.IndexWhere(identities, (a: AnonymousIdentity) => a.id == id)
  }

  /** `Room.findOne({ _id: roomId, members: user })`: the access check every
      message operation performs. */
  function FindAccessibleRoom(rooms: seq<Room>, roomId: Id, user: Id): Option<nat> {
    Collections.IndexWhere(rooms, (r: Room) => r.id == roomId && user in r.members)
  }

  predicate IsMember(rooms: seq<Room>, roomId: Id, user: Id) {
    FindAccessibleRoom(rooms, roomId, user).Some?
  }

  /** The direct-room query `{ type: "direct", members: { $all: [a, b], $size: 2 } }`. */
  predicate IsDirectBetween(r: Room, a: Id, b: Id) {
    r.rtype == Direct && |r.members| == 2 && a in r.members && b in r.members
  }

  function FindDirectRoom(rooms: seq<Room>, a: Id, b: Id): Option<nat> {
    Collections.IndexWhere(rooms, (r: Room) => IsDirectBetween(r, a, b))
  }

  /** What every room created by the room controllers satisfies: no member
      twice; a direct room has two members and no admins; a group has at
      least three members and a single admin who is a member. */
  predicate WellFormedRoom(r: Room) {
    && Collections.NoDuplicates(r.members)
    && (r.rtype == Direct ==> |r.members| == 2 && r.admins == [])
    && (r.rtype == Group ==> |r.members| >= 3 && |r.admins| == 1 && r.admins[0] in r.members)
  }

  /** No two direct rooms join the same pair of users. */
  predicate DirectRoomsUnique(rooms: seq<Room>) {
    forall i, j :: 0 <= i < |rooms| && 0 <= j < |rooms| && i != j && IsDirectPair(rooms[i]) ==>
      !IsDirectBetween(rooms[j], rooms[i].members[0], rooms[i].members[1])
  }

  predicate IsDirectPair(r: Room) {
    r.rtype == Direct && |r.members| == 2
  }

  /** A stored message was sent by a member of its room. */
  predicate SendersWereMembers(rooms: seq<Room>, messages: seq<Message>) {
    forall k :: 0 <= k < |messages| ==> IsMember(rooms, messages[k].room, messages[k].sender)
  }

  /** A room's last message, when set, is a stored message of that room. */
  predicate LastMessageBelongs(r: Room, messages: seq<Message>) {
    r.lastMessage.Some? ==>
      var j := FindMessage(messages, r.lastMessage.value);
      j.Some? && messages[j.value].room == r.id
  }

  predicate LastMessagesBelong(rooms: seq<Room>, messages: seq<Message>) {
    forall k :: 0 <= k < |rooms| ==> LastMessageBelongs(rooms[k], messages)
  }

  /** Every id in the collections is below `nextId`. */
  predicate IdsBelow(users: seq<User>, rooms: seq<Room>, messages: seq<Message>,
                     identities: seq<AnonymousIdentity>, nextId: Id) {
    && (forall i :: 0 <= i < |users| ==> users[i].id < nextId)
    && (forall i :: 0 <= i < |rooms| ==> rooms[i].id < nextId)
    && (forall i :: 0 <= i < |messages| ==> messages[i].id < nextId)
    && (forall i :: 0 <= i < |identities| ==> identities[i].id < nextId)
  }

  /** The invariant of the stored collections: distinct ids below the next
      fresh one, well-formed rooms, at most one direct room per pair, senders
      who were members, last messages that belong to their rooms, and one
      anonymous identity per user and room. */
  predicate StoreInvariant(users: seq<User>, rooms: seq<Room>, messages: seq<Message>,
                           identities: seq<AnonymousIdentity>, nextId: Id) {
    && DistinctUserIds(users) && DistinctRoomIds(rooms)
    && DistinctMessageIds(messages) && DistinctIdentityIds(identities)
    && IdsBelow(users, rooms, messages, identities, nextId)
    && (forall i :: 0 <= i < |rooms| ==> WellFormedRoom(rooms[i]))
    && DirectRoomsUnique(rooms)
    && SendersWereMembers(rooms, messages)
    && LastMessagesBelong(rooms, messages)
    && OneIdentityPerUserRoom(identities)
  }

  /** The error a write reports: a schema violation, or a unique-index clash. */
  datatype WriteError = Invalid(reason: SchemaError) | DuplicateKey

  class Store {
    var users: seq<User>
    var rooms: seq<Room>
    var messages: seq<Message>
    var identities: seq<AnonymousIdentity>
    /** The next fresh document id. */
    var nextId: Id

    ghost predicate Valid()
      reads this
    {
      StoreInvariant(users, rooms, messages, identities, nextId)
    }

    /** A store holding the registered users and nothing else. */
    constructor (users: seq<User>, firstFreeId: Id)
      requires DistinctUserIds(users)
      requires forall i :: 0 <= i < |users| ==> users[i].id < firstFreeId
      ensures Valid()
      ensures this.users == users && rooms == [] && messages == [] && identities == []
      ensures nextId == firstFreeId
    {
      this.users := users;
      rooms, messages, identities := [], [], [];
      nextId := firstFreeId;
    }

    /** `Room.create(fields)`. The caller vouches that the new room is well
        formed and is not a second direct room for the same pair. */
    method InsertRoom(f: RoomFields, now: Timestamp) returns (r: Result<Room, SchemaError>)
      requires Valid()
      requires f.lastMessage.None?
      requires CreateRoom(nextId, f, now).Success? ==> WellFormedRoom(CreateRoom(nextId, f, now).value)
      requires CreateRoom(nextId, f, now).Success? && IsDirectPair(CreateRoom(nextId, f, now).value) ==>
        var m := CreateRoom(nextId, f, now).value.members;
        FindDirectRoom(rooms, m[0], m[1]).None?
      modifies this
      ensures Valid()
      ensures r == CreateRoom(old(nextId), f, now)
      ensures r.Success? ==> rooms == old(rooms) + [r.value] && nextId == old(nextId) + 1
      ensures r.Failure? ==> rooms == old(rooms) && nextId == old(nextId)
      ensures users == old(users) && messages == old(messages) && identities == old(identities)
    {
      r := CreateRoom(nextId, f, now);
      if r.Success? {
        AppendRoomKeepsInvariant(users, rooms, messages, identities, nextId, r.value);
        rooms := rooms + [r.value];
        nextId := nextId + 1;
      }
    }

    /** `message.save()` for a message built from `f`. The caller has
        checked that the sender belongs to the room. */
    method SaveMessage(f: MessageFields, now: Timestamp) returns (r: Result<Message, SchemaError>)
      requires Valid()
      requires f.room.Some? && f.sender.Some? ==> IsMember(rooms, f.room.value, f.sender.value)
      modifies this
      ensures Valid()
      ensures r == CreateMessage(old(nextId), f, now)
      ensures r.Success? ==> messages == old(messages) + [r.value] && nextId == old(nextId) + 1
      ensures r.Failure? ==> messages == old(messages) && nextId == old(nextId)
      ensures users == old(users) && rooms == old(rooms) && identities == old(identities)
    {
      r := CreateMessage(nextId, f, now);
      if r.Success? {
        AppendMessageKeepsInvariant(users, rooms, messages, identities, nextId, r.value);
        messages := messages + [r.value];
        nextId := nextId + 1;
      }
    }

    /** `room.lastMessage = messageId; room.updatedAt = now; room.save()`
        on the room at index `k`, whose stored message `messageId` is. */
    method TouchRoom(k: nat, messageId: Id, now: Timestamp)
      requires Valid()
      requires k < |rooms|
      requires FindMessage(messages, messageId).Some?
      requires messages[FindMessage(messages, messageId).value].room == rooms[k].id
      modifies this
      ensures Valid()
      ensures rooms == old(rooms)[k := old(rooms)[k].(lastMessage := Some(messageId), updatedAt := now)]
      ensures users == old(users) && messages == old(messages) && identities == old(identities)
      ensures nextId == old(nextId)
    {
      TouchKeepsInvariant(users, rooms, messages, identities, nextId, k, messageId, now);
      rooms := rooms[k := rooms[k].(lastMessage := Some(messageId), updatedAt := now)];
    }

    /** Inserting an anonymous identity; the unique index on `(user, room)`
        refuses a second identity for the same pair. */
    method InsertIdentity(f: IdentityFields, now: Timestamp) returns (r: Result<AnonymousIdentity, WriteError>)
      requires Valid()
      modifies this
      ensures Valid()
      ensures CreateIdentity(old(nextId), f, now).Failure? ==>
        r == Failure(Invalid(CreateIdentity(old(nextId), f, now).error)) && identities == old(identities)
      ensures CreateIdentity(old(nextId), f, now).Success? ==>
        var a := CreateIdentity(old(nextId), f, now).value;
        if HasIdentityFor(old(identities), a.user, a.room)
        then r == Failure(DuplicateKey) && identities == old(identities)
        else r == Success(a) && identities == old(identities) + [a]
      ensures users == old(users) && rooms == old(rooms) && messages == old(messages)
    {
      var created := CreateIdentity(nextId, f, now);
      if created.Failure? {
        r := Failure(Invalid(created.error));
      } else if HasIdentityFor(identities, created.value.user, created.value.room) {
        r := Failure(DuplicateKey);
      } else {
        var a := created.value;
        AppendIdentityKeepsInvariant(users, rooms, messages, identities, nextId, a);
        identities := identities + [a];
        nextId := nextId + 1;
        r := Success(a);
      }
    }
  }

  /** Inserting a well-formed room under the fresh id keeps the invariant,
      provided a direct room does not repeat a stored pair. */
  lemma AppendRoomKeepsInvariant(users: seq<User>, rooms: seq<Room>, messages: seq<Message>,
                                 identities: seq<AnonymousIdentity>, nextId: Id, room: Room)
    requires StoreInvariant(users, rooms, messages, identities, nextId)
    requires room.id == nextId && room.lastMessage.None? && WellFormedRoom(room)
    requires IsDirectPair(room) ==> FindDirectRoom(rooms, room.members[0], room.members[1]).None?
    ensures StoreInvariant(users, rooms + [room], messages, identities, nextId + 1)
  {
    var all := rooms + [room];
    forall i, j | 0 <= i < j < |all| ensures all[i].id != all[j].id {
      assert all[i] == rooms[i];
      if j < |rooms| { assert all[j] == rooms[j]; }
    }
    forall i | 0 <= i < |all|
      ensures all[i].id < nextId + 1 && WellFormedRoom(all[i]) && LastMessageBelongs(all[i], messages)
    {
      if i < |rooms| { assert all[i] == rooms[i]; }
    }
    AppendRoomKeepsSenders(rooms, messages, room);
    AppendRoomKeepsDirectPairs(rooms, room);
  }

  lemma AppendRoomKeepsSenders(rooms: seq<Room>, messages: seq<Message>, room: Room)
    requires SendersWereMembers(rooms, messages)
    ensures SendersWereMembers(rooms + [room], messages)
  {
    forall k | 0 <= k < |messages|
      ensures IsMember(rooms + [room], messages[k].room, messages[k].sender)
    {
      var m := messages[k];
      Collections.IndexWhereAppend(rooms, room, (x: Room) => x.id == m.room && m.sender in x.members);
    }
  }

  lemma AppendRoomKeepsDirectPairs(rooms: seq<Room>, room: Room)
    requires DirectRoomsUnique(rooms) && forall i :: 0 <= i < |rooms| ==> WellFormedRoom(rooms[i])
    requires WellFormedRoom(room)
    requires IsDirectPair(room) ==> FindDirectRoom(rooms, room.members[0], room.members[1]).None?
    ensures DirectRoomsUnique(rooms + [room])
  {
    var all := rooms + [room];
    forall i, j | 0 <= i < |all| && 0 <= j < |all| && i != j && IsDirectPair(all[i])
      ensures !IsDirectBetween(all[j], all[i].members[0], all[i].members[1])
    {
      if i == |rooms| {
        var p := (x: Room) => IsDirectBetween(x, room.members[0], room.members[1]);
        assert all[j] == rooms[j];
        assert !p(rooms[j]);
      } else if j == |rooms| {
        assert all[i] == rooms[i];
        if IsDirectPair(room) {
          NewDirectRoomDistinct(rooms, room, i);
        }
      } else {
        assert all[i] == rooms[i] && all[j] == rooms[j];
      }
    }
  }

  /** Inserting a message under the fresh id, sent by a member of its room,
      keeps the invariant. */
  lemma AppendMessageKeepsInvariant(users: seq<User>, rooms: seq<Room>, messages: seq<Message>,
                                    identities: seq<AnonymousIdentity>, nextId: Id, msg: Message)
    requires StoreInvariant(users, rooms, messages, identities, nextId)
    requires msg.id == nextId && IsMember(rooms, msg.room, msg.sender)
    ensures StoreInvariant(users, rooms, messages + [msg], identities, nextId + 1)
  {
    var all := messages + [msg];
    forall i, j | 0 <= i < j < |all| ensures all[i].id != all[j].id {
      assert all[i] == messages[i];
      if j < |messages| { assert all[j] == messages[j]; }
    }
    forall k | 0 <= k < |all|
      ensures all[k].id < nextId + 1 && IsMember(rooms, all[k].room, all[k].sender)
    {
      if k < |messages| { assert all[k] == messages[k]; }
    }
    forall k | 0 <= k < |rooms| ensures LastMessageBelongs(rooms[k], all) {
      if rooms[k].lastMessage.Some? {
        var id := rooms[k].lastMessage.value;
        assert LastMessageBelongs(rooms[k], messages);
        Collections.IndexWhereAppend(messages, msg, (m: Message) => m.id == id);
      }
    }
  }

  /** Pointing room `k` at one of its own stored messages keeps the invariant. */
  lemma TouchKeepsInvariant(users: seq<User>, rooms: seq<Room>, messages: seq<Message>,
                            identities: seq<AnonymousIdentity>, nextId: Id,
                            k: nat, messageId: Id, now: Timestamp)
    requires StoreInvariant(users, rooms, messages, identities, nextId)
    requires k < |rooms|
    requires FindMessage(messages, messageId).Some?
    requires messages[FindMessage(messages, messageId).value].room == rooms[k].id
    ensures StoreInvariant(users, rooms[k := rooms[k].(lastMessage := Some(messageId), updatedAt := now)],
                           messages, identities, nextId)
  {
    var all := rooms[k := rooms[k].(lastMessage := Some(messageId), updatedAt := now)];
    forall i | 0 <= i < |all|
      ensures SameShape(all[i], rooms[i]) && LastMessageBelongs(all[i], messages)
    {
      if i != k { assert LastMessageBelongs(rooms[i], messages); }
    }
    SameShapeKeepsRoomFacts(rooms, all, messages);
  }

  /** Two rooms that differ at most in their last message and timestamps. */
  predicate SameShape(a: Room, b: Room) {
    a.id == b.id && a.rtype == b.rtype && a.members == b.members && a.admins == b.admins
  }

  /** What the invariant says about rooms apart from their last messages
      survives a change that keeps every room's shape. */
  lemma SameShapeKeepsRoomFacts(rooms: seq<Room>, all: seq<Room>, messages: seq<Message>)
    requires |all| == |rooms| && forall i :: 0 <= i < |all| ==> SameShape(all[i], rooms[i])
    requires DistinctRoomIds(rooms) && DirectRoomsUnique(rooms) && SendersWereMembers(rooms, messages)
    requires forall i :: 0 <= i < |rooms| ==> WellFormedRoom(rooms[i])
    ensures DistinctRoomIds(all) && DirectRoomsUnique(all) && SendersWereMembers(all, messages)
    ensures forall i :: 0 <= i < |all| ==> WellFormedRoom(all[i])
  {
    forall i, j | 0 <= i < |all| && 0 <= j < |all| && i != j && IsDirectPair(all[i])
      ensures !IsDirectBetween(all[j], all[i].members[0], all[i].members[1])
    {
      assert IsDirectPair(rooms[i]);
      assert !IsDirectBetween(rooms[j], rooms[i].members[0], rooms[i].members[1]);
    }
    forall i | 0 <= i < |all| ensures WellFormedRoom(all[i]) {
      assert WellFormedRoom(rooms[i]);
    }
    forall i | 0 <= i < |messages|
      ensures IsMember(all, messages[i].room, messages[i].sender)
    {
      var m := messages[i];
      var p := (x: Room) => x.id == m.room && m.sender in x.members;
      Collections.IndexWhereCongruent(rooms, p, all, p);
    }
  }

  /** Inserting an identity under the fresh id for a new user and room pair
      keeps the invariant. */
  lemma AppendIdentityKeepsInvariant(users: seq<User>, rooms: seq<Room>, messages: seq<Message>,
                                     identities: seq<AnonymousIdentity>, nextId: Id, a: AnonymousIdentity)
    requires StoreInvariant(users, rooms, messages, identities, nextId)
    requires a.id == nextId && !HasIdentityFor(identities, a.user, a.room)
    ensures StoreInvariant(users, rooms, messages, identities + [a], nextId + 1)
  {
    var all := identities + [a];
    forall i, j | 0 <= i < j < |all|
      ensures all[i].id != all[j].id
      ensures all[i].user != all[j].user || all[i].room != all[j].room
    {
      assert all[i] == identities[i];
      if j < |identities| { assert all[j] == identities[j]; }
    }
    forall i | 0 <= i < |all| ensures all[i].id < nextId + 1 {
      if i < |identities| { assert all[i] == identities[i]; }
    }
  }

  /** Some stored identity already belongs to this user in this room. */
  predicate HasIdentityFor(identities: seq<AnonymousIdentity>, user: Id, room: Id) {
    exists i :: 0 <= i < |identities| && identities[i].user == user && identities[i].room == room
  }

  /** A direct room created because the lookup found nothing does not repeat
      the pair of an existing direct room. */
  lemma NewDirectRoomDistinct(rooms: seq<Room>, room: Room, i: nat)
    requires i < |rooms| && IsDirectPair(rooms[i])
    requires WellFormedRoom(rooms[i]) && WellFormedRoom(room) && IsDirectPair(room)
    requires FindDirectRoom(rooms, room.members[0], room.members[1]).None?
    ensures !IsDirectBetween(room, rooms[i].members[0], rooms[i].members[1])
  {
    var a, b := room.members[0], room.members[1];
    assert !IsDirectBetween(rooms[i], a, b) by {
      var p := (x: Room) => IsDirectBetween(x, a, b);
      assert !p(rooms[i]);
    }
    var c, d := rooms[i].members[0], rooms[i].members[1];
    assert c != d && a != b;
  }
}
