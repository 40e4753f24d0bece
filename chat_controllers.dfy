/** The chat list: every room the caller belongs to, most recently active
    first, each projected to the entry the sidebar shows. A direct room is
    named after the other member, a group keeps its own name. */
module ChatControllers {
  import opened Wrappers
  import opened Models
  import opened Database
  import Sorting

  const UnknownUserName := "Unknown User"

  /** `Room.find({ members: caller })` in storage order. */
  function RoomsOf(rooms: seq<Room>, caller: Id): (r: seq<Room>)
    ensures forall x :: x in r <==> x in rooms && caller in x.members
    ensures |r| <= |rooms|
  {
    if rooms == [] then []
    else
      assert forall x :: x in rooms <==> x == rooms[0] || x in rooms[1..];
      (if caller in rooms[0].members then [rooms[0]] else []) + RoomsOf(rooms[1..], caller)
  }

  /** The filter works piecewise, so the caller's rooms keep their storage
      order. */
  lemma {:induction false} RoomsOfConcat(a: seq<Room>, b: seq<Room>, caller: Id)
    ensures RoomsOf(a + b, caller) == RoomsOf(a, caller) + RoomsOf(b, caller)
  {
    if a == [] {
      assert a + b == b;
    } else {
      assert (a + b)[1..] == a[1..] + b;
      RoomsOfConcat(a[1..], b, caller);
    }
  }

  /** The sort key of `.sort({ updatedAt: -1 })`. */
  function NewestFirst(r: Room): int { -r.updatedAt }

  /** The caller's rooms, most recently updated first; rooms updated at the
      same instant keep their storage order. */
  function OrderedRooms(rooms: seq<Room>, caller: Id): (r: seq<Room>)
    ensures |r| == |RoomsOf(rooms, caller)|
    ensures multiset(r) == multiset(RoomsOf(rooms, caller))
    ensures forall i, j :: 0 <= i < j < |r| ==> r[i].updatedAt >= r[j].updatedAt
    ensures forall x :: x in r <==> x in rooms && caller in x.members
  {
    var s := RoomsOf(rooms, caller);
    var r := Sorting.SortBy(s, NewestFirst);
    assert forall x :: x in r <==> x in multiset(s);
    assert forall i, j :: 0 <= i < j < |r| ==> NewestFirst(r[i]) <= NewestFirst(r[j]);
    r
  }

  /** Rooms with the same sort key `k`, that is updated at the instant
      `-k`, keep their storage order. */
  lemma OrderedRoomsStable(rooms: seq<Room>, caller: Id, k: int)
    ensures Sorting.WithKey(OrderedRooms(rooms, caller), NewestFirst, k)
         == Sorting.WithKey(RoomsOf(rooms, caller), NewestFirst, k)
  {
    Sorting.SortByStable(RoomsOf(rooms, caller), NewestFirst, k);
  }

  /** The populated `members` of a room: the member users other than the
      caller, in member order; an id with no user behind it drops out. */
  function Others(users: seq<User>, caller: Id, members: seq<Id>): (r: seq<User>)
    ensures forall u :: u in r ==> u in users && u.id != caller && u.id in members
    ensures forall m :: m in members && m != caller && FindUser(users, m).Some? ==>
      users[FindUser(users, m).value] in r
  {
    if members == [] then []
    else
      var m := members[0];
      var head := if m != caller && FindUser(users, m).Some? then [users[FindUser(users, m).value]] else [];
      assert forall x :: x in members <==> x == m || x in members[1..];
      head + Others(users, caller, members[1..])
  }

  /** A populated `anonymousProfile`: `aliasName` and `avatarSeed`. */
  datatype ProfileView = ProfileView(id: Id, aliasName: string, avatarSeed: Option<string>)

  /** A populated `lastMessage`; it carries the sender's id. */
  datatype LastMessageView = LastMessageView(
    id: Id, content: Option<string>, sender: Id, createdAt: Timestamp,
    isAnonymous: bool, anonymousProfile: Option<ProfileView>)

  function PopulateProfile(identities: seq<AnonymousIdentity>, profile: Option<Id>): (r: Option<ProfileView>)
    ensures r.Some? ==>
      && profile == Some(r.value.id)
      && exists a :: a in identities && a.id == r.value.id && a.aliasName == r.value.aliasName
                     && a.avatarSeed == r.value.avatarSeed
    ensures r.None? ==> profile.None? || FindIdentity(identities, profile.value).None?
  {
    if profile.None? then None
    else match FindIdentity(identities, profile.value)
      case None => None
      case Some(k) =>
        var a := identities[k];
        Some(ProfileView(a.id, a.aliasName, a.avatarSeed))
  }

  function PopulateLastMessage(messages: seq<Message>, identities: seq<AnonymousIdentity>, last: Option<Id>)
    : (r: Option<LastMessageView>)
    ensures r.Some? ==>
      && last == Some(r.value.id)
      && exists m :: m in messages && m.id == r.value.id && m.content == r.value.content
                     && m.sender == r.value.sender && m.createdAt == r.value.createdAt
                     && m.isAnonymous == r.value.isAnonymous
    ensures r.None? ==> last.None? || FindMessage(messages, last.value).None?
  {
    if last.None? then None
    else match FindMessage(messages, last.value)
      case None => None
      case Some(k) =>
        var m := messages[k];
        Some(LastMessageView(m.id, m.content, m.sender, m.createdAt, m.isAnonymous,
                             PopulateProfile(identities, m.anonymousProfile)))
  }

  /** The chat list shows the real sender of an anonymous last message. */
  lemma AnonymousLastMessageExposesSender(messages: seq<Message>, identities: seq<AnonymousIdentity>, k: nat)
    requires DistinctMessageIds(messages)
    requires k < |messages| && messages[k].isAnonymous
    ensures var r := PopulateLastMessage(messages, identities, Some(messages[k].id));
      r.Some? && r.value.isAnonymous && r.value.sender == messages[k].sender
  {
    var j := FindMessage(messages, messages[k].id);
    assert j == Some(k) by {
      var p := (m: Message) => m.id == messages[k].id;
      assert p(messages[k]);
    }
  }

  /** One entry of the chat list. */
  datatype ChatEntry = ChatEntry(
    id: Id, name: Option<string>, rtype: RoomType, isGroup: bool,
    avatarUrl: Option<string>, lastMessage: Option<LastMessageView>, updatedAt: Timestamp)

  /** The display name of a direct chat with `u`. */
  function PeerName(u: User): (r: string)
    ensures r != ""
    ensures u.username != "" ==> r == u.username
  {
    if u.username == "" then UnknownUserName else u.username
  }

  /** The projection of one room. */
  function ChatEntryOf(users: seq<User>, messages: seq<Message>, identities: seq<AnonymousIdentity>,
                       caller: Id, room: Room): (e: ChatEntry)
    ensures e.id == room.id && e.rtype == room.rtype && e.updatedAt == room.updatedAt
    ensures e.isGroup <==> room.rtype != Direct
    ensures room.rtype != Direct ==> e.name == room.name && e.avatarUrl.None?
    ensures room.rtype == Direct && Others(users, caller, room.members) != [] ==>
      var peer := Others(users, caller, room.members)[0];
      && peer.id != caller && peer.id in room.members
      && e.name == Some(PeerName(peer)) && e.avatarUrl == peer.avatarUrl
    ensures room.rtype == Direct && Others(users, caller, room.members) == [] ==>
      e.name == room.name && e.avatarUrl.None?
    ensures e.lastMessage == PopulateLastMessage(messages, identities, room.lastMessage)
  {
    var others := Others(users, caller, room.members);
    var last := PopulateLastMessage(messages, identities, room.lastMessage);
    if room.rtype == Direct && |others| > 0 then
      assert others[0] in others;
      ChatEntry(room.id, Some(PeerName(others[0])), room.rtype, false, others[0].avatarUrl, last, room.updatedAt)
    else
      ChatEntry(room.id, room.name, room.rtype, room.rtype != Direct, None, last, room.updatedAt)
  }

  /** `getChats`. */
  function GetChats(rooms: seq<Room>, users: seq<User>, messages: seq<Message>,
                    identities: seq<AnonymousIdentity>, caller: Id): (r: seq<ChatEntry>)
    ensures |r| == |RoomsOf(rooms, caller)|
    ensures forall i :: 0 <= i < |r| ==>
      r[i] == ChatEntryOf(users, messages, identities, caller, OrderedRooms(rooms, caller)[i])
    ensures forall i, j :: 0 <= i < j < |r| ==> r[i].updatedAt >= r[j].updatedAt
  {
    var ordered := OrderedRooms(rooms, caller);
    seq(|ordered|, i requires 0 <= i < |ordered| => ChatEntryOf(users, messages, identities, caller, ordered[i]))
  }

  /** A direct room created between the caller and a registered user `t`
      shows up named after `t`, with `t`'s avatar. */
  lemma DirectChatNamedAfterPeer(users: seq<User>, messages: seq<Message>, identities: seq<AnonymousIdentity>,
                                 caller: Id, room: Room, t: Id)
    requires room.rtype == Direct && (room.members == [caller, t] || room.members == [t, caller])
    requires t != caller && FindUser(users, t).Some?
    ensures var e := ChatEntryOf(users, messages, identities, caller, room);
      var peer := users[FindUser(users, t).value];
      && e.name == Some(PeerName(peer)) && e.avatarUrl == peer.avatarUrl && !e.isGroup
  {
    var others := Others(users, caller, room.members);
    var peer := users[FindUser(users, t).value];
    assert Others(users, caller, [t]) == [peer] by {
      assert [t][1..] == [];
    }
    if room.members == [caller, t] {
      assert room.members[1..] == [t];
    } else {
      assert room.members[1..] == [caller];
      assert Others(users, caller, [caller]) == [] by {
        assert [caller][1..] == [];
      }
    }
    assert others == [peer];
  }
}
