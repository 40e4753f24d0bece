/** The stored records: User, Room, Message and AnonymousIdentity, with the
    schema rules (required fields, the room-type enumeration, defaults,
    trimming, timestamps) that apply when a record is created. A field the
    caller does not supply is `None` in the `...Fields` inputs. */
module Models {
  import opened Wrappers
  import Text

  /** A document id (a MongoDB ObjectId). */
  type Id = nat

  /** Milliseconds since the epoch. */
  type Timestamp = int

  /** The user record as the controllers read it. Its schema file is not part
      of this model; only the fields the core reads are kept. */
  datatype User = User(
    id: Id,
    username: string,
    email: string,
    password: string,
    avatarUrl: Option<string>,
    blockedUsers: seq<Id>,
    blockedBy: seq<Id>)

  datatype RoomType = Direct | Group | AnonymousGroup

  /** The stored spelling of each room type. */
  function RoomTypeName(t: RoomType): string {
    match t
    case Direct => "direct"
    case Group => "group"
    case AnonymousGroup => "anonymous_group"
  }

  /** The `type` field after the schema's enumeration check, with `group`
      as the default when no type is given. */
  function RoomTypeOf(given: Option<string>): (r: Option<RoomType>)
    ensures given.None? ==> r == Some(Group)
    ensures given.Some? ==> (r.Some? <==> given.value in {"direct", "group", "anonymous_group"})
    ensures given.Some? && r.Some? ==> RoomTypeName(r.value) == given.value
  {
    match given
    case None => Some(Group)
    case Some(s) =>
      if s == "direct" then Some(Direct)
      else if s == "group" then Some(Group)
      else if s == "anonymous_group" then Some(AnonymousGroup)
      else None
  }

  /** Why the schema refuses a document. */
  datatype SchemaError = Required(path: string) | NotInEnum(path: string)

  datatype Room = Room(
    id: Id,
    name: Option<string>,
    rtype: RoomType,
    members: seq<Id>,
    admins: seq<Id>,
    lastMessage: Option<Id>,
    isAnonymousWorld: bool,
    createdAt: Timestamp,
    updatedAt: Timestamp)

  /** What `Room.create` is given. */
  datatype RoomFields = RoomFields(
    name: Option<string>,
    rtype: Option<string>,
    members: seq<Option<Id>>,
    admins: seq<Id>,
    lastMessage: Option<Id>,
    isAnonymousWorld: Option<bool>)

  predicate AllPresent(xs: seq<Option<Id>>) {
    forall i :: 0 <= i < |xs| ==> xs[i].Some?
  }

  function Present(xs: seq<Option<Id>>): (r: seq<Id>)
    requires AllPresent(xs)
    ensures |r| == |xs|
    ensures forall i :: 0 <= i < |xs| ==> xs[i] == Some(r[i])
  {
    if xs == [] then [] else [xs[0].value] + Present(xs[1..])
  }

  /** Every room-member entry is a required user reference, the type must be
      one of the three kinds, and a new room gets `group`, no last message,
      `isAnonymousWorld = false` and both timestamps set to `now` unless told
      otherwise. */
  function CreateRoom(id: Id, f: RoomFields, now: Timestamp): (r: Result<Room, SchemaError>)
    ensures r.Success? <==> RoomTypeOf(f.rtype).Some? && AllPresent(f.members)
    ensures RoomTypeOf(f.rtype).None? ==> r == Failure(NotInEnum("type"))
    ensures RoomTypeOf(f.rtype).Some? && !AllPresent(f.members) ==> r == Failure(Required("members"))
    ensures r.Success? ==>
      && r.value.id == id
      && r.value.name == f.name
      && Some(r.value.rtype) == RoomTypeOf(f.rtype)
      && |r.value.members| == |f.members|
      && (forall i :: 0 <= i < |f.members| ==> f.members[i] == Some(r.value.members[i]))
      && r.value.admins == f.admins
      && r.value.lastMessage == f.lastMessage
      && r.value.isAnonymousWorld == f.isAnonymousWorld.GetOr(false)
      && r.value.createdAt == now && r.value.updatedAt == now
  {
    match RoomTypeOf(f.rtype)
    case None => Failure(NotInEnum("type"))
    case Some(t) =>
      if !AllPresent(f.members) then Failure(Required("members"))
      else
        Success(Room(id, f.name, t, Present(f.members), f.admins, f.lastMessage,
                     f.isAnonymousWorld.GetOr(false), now, now))
  }

  datatype Message = Message(
    id: Id,
    room: Id,
    sender: Id,
    content: Option<string>,
    isEdited: bool,
    isAnonymous: bool,
    anonymousProfile: Option<Id>,
    createdAt: Timestamp,
    updatedAt: Timestamp)

  /** What `new Message(...)` is given. */
  datatype MessageFields = MessageFields(
    room: Option<Id>,
    sender: Option<Id>,
    content: Option<string>,
    isEdited: Option<bool>,
    isAnonymous: Option<bool>,
    anonymousProfile: Option<Id>)

  /** Room and sender are required; content is stored trimmed; `isEdited`
      and `isAnonymous` default to false; the anonymous profile is optional. */
  function CreateMessage(id: Id, f: MessageFields, now: Timestamp): (r: Result<Message, SchemaError>)
    ensures r.Success? <==> f.room.Some? && f.sender.Some?
    ensures f.room.None? ==> r == Failure(Required("room"))
    ensures f.room.Some? && f.sender.None? ==> r == Failure(Required("sender"))
    ensures r.Success? ==>
      && r.value.id == id
      && Some(r.value.room) == f.room && Some(r.value.sender) == f.sender
      && (f.content.None? <==> r.value.content.None?)
      && (f.content.Some? ==> r.value.content == Some(Text.Trim(f.content.value)))
      && r.value.isEdited == (f.isEdited == Some(true))
      && r.value.isAnonymous == (f.isAnonymous == Some(true))
      && r.value.anonymousProfile == f.anonymousProfile
      && r.value.createdAt == now && r.value.updatedAt == now
    ensures r.Success? && r.value.content.Some? ==> Text.IsTrimmed(r.value.content.value)
  {
    if f.room.None? then Failure(Required("room"))
    else if f.sender.None? then Failure(Required("sender"))
    else
      var content := match f.content
        case None => None
        case Some(c) => Some(Text.Trim(c));
      assert f.content.Some? ==> Text.IsTrimmed(Text.Trim(f.content.value)) by {
        if f.content.Some? { Text.TrimSpec(f.content.value); }
      }
      Success(Message(id, f.room.value, f.sender.value, content,
                      f.isEdited.GetOr(false), f.isAnonymous.GetOr(false),
                      f.anonymousProfile, now, now))
  }

  datatype AnonymousIdentity = AnonymousIdentity(
    id: Id,
    user: Id,
    room: Id,
    aliasName: string,
    avatarSeed: Option<string>,
    createdAt: Timestamp,
    updatedAt: Timestamp)

  datatype IdentityFields = IdentityFields(
    user: Option<Id>,
    room: Option<Id>,
    aliasName: Option<string>,
    avatarSeed: Option<string>)

  /** User, room and alias are required (a required string must also be
      non-empty); the avatar seed is optional. */
  function CreateIdentity(id: Id, f: IdentityFields, now: Timestamp): (r: Result<AnonymousIdentity, SchemaError>)
    ensures r.Success? <==> f.user.Some? && f.room.Some? && f.aliasName.Some? && f.aliasName.value != ""
    ensures r.Success? ==>
      && r.value.id == id
      && Some(r.value.user) == f.user && Some(r.value.room) == f.room
      && Some(r.value.aliasName) == f.aliasName
      && r.value.avatarSeed == f.avatarSeed
      && r.value.createdAt == now && r.value.updatedAt == now
  {
    if f.user.None? then Failure(Required("user"))
    else if f.room.None? then Failure(Required("room"))
    else if f.aliasName.None? || f.aliasName.value == "" then Failure(Required("aliasName"))
    else Success(AnonymousIdentity(id, f.user.value, f.room.value, f.aliasName.value, f.avatarSeed, now, now))
  }

  /** The unique index on `(user, room)`: at most one identity per user per room. */
  predicate OneIdentityPerUserRoom(ids: seq<AnonymousIdentity>) {
    forall i, j :: 0 <= i < j < |ids| ==> ids[i].user != ids[j].user || ids[i].room != ids[j].room
  }
}
