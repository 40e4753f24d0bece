/** Sending a message to a room and listing a room's messages. Sending
    checks the input, then membership, stores the trimmed message and moves
    the room's `lastMessage`/`updatedAt`. Listing checks membership and
    returns the room's messages oldest first, with the sender of every
    anonymous message replaced by its alias. */
module MessageControllers {
  import opened Wrappers
  import opened Models
  import opened Database
  import Collections
  import Sorting
  import Text

  const MissingInputMessage := "Room ID and content are required"
  const NoAccessMessage := "You don't have access to this chat"
  const AnonymousName := "Anonymous"
  const AvatarPrefix := "/api/anonymous-avatar?seed="
  const DefaultSeed := "default"

  /** A populated `sender`: `_id`, `username` and `avatarUrl`. */
  datatype SenderView = SenderView(id: Option<Id>, username: string, avatarUrl: Option<string>)

  /** `populate('sender', 'username avatarUrl')`: null when the user is gone. */
  function PopulateSender(users: seq<User>, sender: Id): (r: Option<SenderView>)
    ensures r.None? <==> FindUser(users, sender).None?
    ensures r.Some? ==>
      exists k :: 0 <= k < |users| && users[k].id == sender &&
                  r.value == SenderView(Some(sender), users[k].username, users[k].avatarUrl)
  {
    match FindUser(users, sender)
    case None => None
    case Some(k) => Some(SenderView(Some(users[k].id), users[k].username, users[k].avatarUrl))
  }

  /** The reply to a successful send: the stored message with its sender
      populated. It carries no room id. */
  datatype SentMessage = SentMessage(
    id: Id, content: Option<string>, sender: Option<SenderView>,
    createdAt: Timestamp, updatedAt: Timestamp)

  /** The check `!roomId || !content?.trim()`. */
  predicate SendInputMissing(roomId: Option<Id>, content: Option<string>) {
    roomId.None? || content.None? || Text.Trim(content.value) == ""
  }

  /** `sendMessage`. The input check comes before the access check; nothing
      is stored unless both pass. */
  method SendMessage(db: Store, caller: Id, roomId: Option<Id>, content: Option<string>, now: Timestamp)
    returns (reply: Reply<SentMessage>)
    requires db.Valid()
    modifies db
    ensures db.Valid()
    ensures SendInputMissing(roomId, content) ==>
      reply == Fail(400, MissingInputMessage) && unchanged(db)
    ensures !SendInputMissing(roomId, content) && !IsMember(old(db.rooms), roomId.value, caller) ==>
      reply == Fail(403, NoAccessMessage) && unchanged(db)
    ensures !SendInputMissing(roomId, content) && IsMember(old(db.rooms), roomId.value, caller) ==>
      var k := FindAccessibleRoom(old(db.rooms), roomId.value, caller).value;
      var m := Message(old(db.nextId), roomId.value, caller, Some(Text.Trim(content.value)),
                       false, false, None, now, now);
      && db.messages == old(db.messages) + [m]
      && db.rooms == old(db.rooms)[k := old(db.rooms)[k].(lastMessage := Some(m.id), updatedAt := now)]
      && db.rooms[k].id == roomId.value
      && db.users == old(db.users) && db.identities == old(db.identities)
      && reply == Ok(201, SentMessage(m.id, m.content, PopulateSender(db.users, caller), now, now))
  {
    if SendInputMissing(roomId, content) {
      return Fail(400, MissingInputMessage);
    }
    var rid := roomId.value;
    var found := FindAccessibleRoom(db.rooms, rid, caller);
    if found.None? {
      return Fail(403, NoAccessMessage);
    }
    var k := found.value;
    var trimmed := Text.Trim(content.value);
    Text.TrimIdempotent(content.value);
    var saved := db.SaveMessage(MessageFields(Some(rid), Some(caller), Some(trimmed), None, None, None), now);
    var m := saved.value;
    assert FindMessage(db.messages, m.id) == Some(|old(db.messages)|) by {
      var p := (x: Message) => x.id == m.id;
      Collections.IndexWhereAppendNew(old(db.messages), m, p);
    }
    db.TouchRoom(k, m.id, now);
    reply := Ok(201, SentMessage(m.id, m.content, PopulateSender(db.users, caller), m.createdAt, m.updatedAt));
  }

  /** `Message.find({ room: roomId })` in storage order. */
  function RoomMessages(messages: seq<Message>, roomId: Id): (r: seq<Message>)
    ensures forall i :: 0 <= i < |r| ==> r[i].room == roomId
    ensures forall m :: m in messages && m.room == roomId <==> m in r
    ensures |r| <= |messages|
  {
    if messages == [] then []
    else
      assert forall m :: m in messages <==> m == messages[0] || m in messages[1..];
      (if messages[0].room == roomId then [messages[0]] else []) + RoomMessages(messages[1..], roomId)
  }

  /** The filter works piecewise, so the room's messages keep their storage
      order. */
  lemma {:induction false} RoomMessagesConcat(a: seq<Message>, b: seq<Message>, roomId: Id)
    ensures RoomMessages(a + b, roomId) == RoomMessages(a, roomId) + RoomMessages(b, roomId)
  {
    if a == [] {
      assert a + b == b;
    } else {
      assert (a + b)[1..] == a[1..] + b;
      RoomMessagesConcat(a[1..], b, roomId);
    }
  }

  function CreatedAt(m: Message): int { m.createdAt }

  /** `.sort({ createdAt: 1 })`: the room's messages, oldest first; equal
      timestamps keep their storage order. */
  function OrderedMessages(messages: seq<Message>, roomId: Id): (r: seq<Message>)
    ensures |r| == |RoomMessages(messages, roomId)|
    ensures multiset(r) == multiset(RoomMessages(messages, roomId))
    ensures Sorting.SortedBy(r, CreatedAt)
    ensures forall m :: m in r <==> m in messages && m.room == roomId
  {
    var s := RoomMessages(messages, roomId);
    var r := Sorting.SortBy(s, CreatedAt);
    assert forall m :: m in r <==> m in multiset(s);
    r
  }

  /** Messages with the same timestamp are listed in the order they were stored. */
  lemma OrderedMessagesStable(messages: seq<Message>, roomId: Id, t: int)
    ensures Sorting.WithKey(OrderedMessages(messages, roomId), CreatedAt, t)
         == Sorting.WithKey(RoomMessages(messages, roomId), CreatedAt, t)
  {
    assert OrderedMessages(messages, roomId) == Sorting.SortBy(RoomMessages(messages, roomId), CreatedAt);
    Sorting.SortByStable(RoomMessages(messages, roomId), CreatedAt, t);
  }

  lemma {:induction false} RoomMessagesSorted(messages: seq<Message>, roomId: Id)
    requires Sorting.SortedBy(messages, CreatedAt)
    ensures Sorting.SortedBy(RoomMessages(messages, roomId), CreatedAt)
  {
    if messages != [] {
      RoomMessagesSorted(messages[1..], roomId);
      var rest := RoomMessages(messages[1..], roomId);
      forall i | 0 <= i < |rest| ensures messages[0].createdAt <= rest[i].createdAt {
        assert rest[i] in messages[1..];
      }
    }
  }

  /** Messages stored in send order (each send stamps a later time) are
      listed in exactly their storage order. */
  lemma OrderedMessagesInStorageOrder(messages: seq<Message>, roomId: Id)
    requires Sorting.SortedBy(messages, CreatedAt)
    ensures OrderedMessages(messages, roomId) == RoomMessages(messages, roomId)
  {
    RoomMessagesSorted(messages, roomId);
    Sorting.SortBySorted(RoomMessages(messages, roomId), CreatedAt);
  }

  /** The identity a message's `anonymousProfile` points at, if it exists. */
  function ProfileOf(identities: seq<AnonymousIdentity>, profile: Option<Id>): (r: Option<AnonymousIdentity>)
    ensures r.Some? ==> profile.Some? && r.value in identities && r.value.id == profile.value
    ensures r.None? ==> profile.None? || forall a :: a in identities ==> a.id != profile.value
  {
    if profile.None? then None
    else match FindIdentity(identities, profile.value)
      case None => None
      case Some(k) => Some(identities[k])
  }

  /** The sender shown for an anonymous message: no id, the alias (or
      "Anonymous" when there is none or it is empty), and an avatar URL built
      from the seed (or "default"). */
  function AnonymousSender(identities: seq<AnonymousIdentity>, profile: Option<Id>): (r: SenderView)
    ensures r.id.None?
    ensures var p := ProfileOf(identities, profile);
      && (p.Some? && p.value.aliasName != "" ==> r.username == p.value.aliasName)
      && (p.None? || p.value.aliasName == "" ==> r.username == AnonymousName)
    ensures r.avatarUrl.Some? && |r.avatarUrl.value| > |AvatarPrefix|
    ensures r.avatarUrl.value[..|AvatarPrefix|] == AvatarPrefix
    ensures var p := ProfileOf(identities, profile);
      var seed := r.avatarUrl.value[|AvatarPrefix|..];
      && (p.Some? && p.value.avatarSeed.Some? && p.value.avatarSeed.value != "" ==> seed == p.value.avatarSeed.value)
      && (p.None? || p.value.avatarSeed.None? || p.value.avatarSeed.value == "" ==> seed == DefaultSeed)
  {
    var p := ProfileOf(identities, profile);
    var alias := if p.Some? && p.value.aliasName != "" then p.value.aliasName else AnonymousName;
    var seed := if p.Some? && p.value.avatarSeed.Some? && p.value.avatarSeed.value != ""
                then p.value.avatarSeed.value else DefaultSeed;
    SenderView(None, alias, Some(AvatarPrefix + seed))
  }

  /** One entry of the message list. */
  datatype MessageView = MessageView(
    id: Id, content: Option<string>, isAnonymous: bool, sender: Option<SenderView>,
    createdAt: Timestamp, updatedAt: Timestamp)

  /** The formatting step: an anonymous message gets the masked sender, any
      other its populated sender. */
  function FormatMessage(users: seq<User>, identities: seq<AnonymousIdentity>, m: Message): (r: MessageView)
    ensures r.id == m.id && r.content == m.content && r.isAnonymous == m.isAnonymous
    ensures r.createdAt == m.createdAt && r.updatedAt == m.updatedAt
    ensures m.isAnonymous ==> r.sender == Some(AnonymousSender(identities, m.anonymousProfile))
    ensures !m.isAnonymous ==> r.sender == PopulateSender(users, m.sender)
  {
    MessageView(m.id, m.content, m.isAnonymous,
                if m.isAnonymous then Some(AnonymousSender(identities, m.anonymousProfile))
                else PopulateSender(users, m.sender),
                m.createdAt, m.updatedAt)
  }

  /** The real sender of an anonymous message never reaches the reply: the
      entry is the same whoever sent it. */
  lemma AnonymousSenderHidden(users: seq<User>, identities: seq<AnonymousIdentity>, m: Message, other: Id)
    requires m.isAnonymous
    ensures FormatMessage(users, identities, m) == FormatMessage(users, identities, m.(sender := other))
    ensures FormatMessage(users, identities, m).sender.value.id.None?
  {
  }

  /** The body of a successful list reply. */
  datatype MessagesPage = MessagesPage(
    messages: seq<MessageView>, roomId: Id, chatType: RoomType, currentUserId: Id)

  /** `getMessages`. */
  function GetMessages(rooms: seq<Room>, messages: seq<Message>, users: seq<User>,
                       identities: seq<AnonymousIdentity>, roomId: Id, requester: Id)
    : (r: Reply<MessagesPage>)
    ensures r.Fail? <==> !IsMember(rooms, roomId, requester)
    ensures r.Fail? ==> r == Fail(403, NoAccessMessage)
    ensures r.Ok? ==>
      var list := r.body.messages;
      var ordered := OrderedMessages(messages, roomId);
      && r.status == 200
      && r.body.roomId == roomId && r.body.currentUserId == requester
      && r.body.chatType == rooms[FindAccessibleRoom(rooms, roomId, requester).value].rtype
      && |list| == |RoomMessages(messages, roomId)|
      && (forall i :: 0 <= i < |list| ==> list[i] == FormatMessage(users, identities, ordered[i]))
  {
    match FindAccessibleRoom(rooms, roomId, requester)
    case None => Fail(403, NoAccessMessage)
    case Some(k) =>
      var ordered := OrderedMessages(messages, roomId);
      var list := seq(|ordered|, i requires 0 <= i < |ordered| => FormatMessage(users, identities, ordered[i]));
      Ok(200, MessagesPage(list, roomId, rooms[k].rtype, requester))
  }

  /** The listed messages are oldest first. */
  lemma GetMessagesOldestFirst(rooms: seq<Room>, messages: seq<Message>, users: seq<User>,
                               identities: seq<AnonymousIdentity>, roomId: Id, requester: Id)
    requires GetMessages(rooms, messages, users, identities, roomId, requester).Ok?
    ensures var list := GetMessages(rooms, messages, users, identities, roomId, requester).body.messages;
      forall i, j :: 0 <= i < j < |list| ==> list[i].createdAt <= list[j].createdAt
  {
    var list := GetMessages(rooms, messages, users, identities, roomId, requester).body.messages;
    var ordered := OrderedMessages(messages, roomId);
    forall i, j | 0 <= i < j < |list| ensures list[i].createdAt <= list[j].createdAt {
      assert list[i].createdAt == CreatedAt(ordered[i]) && list[j].createdAt == CreatedAt(ordered[j]);
    }
  }
}
