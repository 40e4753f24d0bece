/** The client's chat store: the chat list, the open chat, its messages,
    who is typing and the message being composed. Each socket event replaces
    some of these fields with a value computed from the old state; the
    computations are the functions below, and the store's methods assign
    their results. */
module ChatState {
  import opened Wrappers
  import opened Models
  import Sorting
  import Text
  import RoomControllers
  import MessageControllers

  /** A message as the client holds it. */
  datatype ClientMessage = ClientMessage(
    id: Option<Id>, roomId: Option<Id>, content: Option<string>, isEdited: bool, createdAt: Timestamp)

  /** A chat-list entry as the client holds it. */
  datatype ClientChat = ClientChat(
    id: Option<Id>, name: Option<string>, isGroup: bool,
    lastMessage: Option<ClientMessage>, updatedAt: Timestamp)

  /** The open chat (`activeChatUser`). */
  datatype ChatUser = ChatUser(id: Option<Id>, name: Option<string>, isGroup: bool)

  datatype TypingUser = TypingUser(userId: Id, username: string)

  /** `state.activeChatUser?.id`: undefined when no chat is open. */
  function ActiveRoomId(active: Option<ChatUser>): Option<Id> {
    if active.None? then None else active.value.id
  }

  // ----- "message received" -----

  /** The message list after a message arrives: it is appended when it
      belongs to the open chat (the two ids compare equal, also when both
      are undefined), and the list is kept otherwise. */
  function ReceivedMessages(messages: seq<ClientMessage>, active: Option<ChatUser>, m: ClientMessage)
    : (r: seq<ClientMessage>)
    ensures ActiveRoomId(active) == m.roomId ==> r == messages + [m]
    ensures ActiveRoomId(active) != m.roomId ==> r == messages
  {
    if ActiveRoomId(active) == m.roomId then messages + [m] else messages
  }

  /** One chat after a message arrives. */
  function TouchChat(c: ClientChat, m: ClientMessage): (r: ClientChat)
    ensures c.id == m.roomId ==> r == c.(lastMessage := Some(m), updatedAt := m.createdAt)
    ensures c.id != m.roomId ==> r == c
  {
    if c.id == m.roomId then c.(lastMessage := Some(m), updatedAt := m.createdAt) else c
  }

  function TouchAll(chats: seq<ClientChat>, m: ClientMessage): (r: seq<ClientChat>)
    ensures |r| == |chats|
    ensures forall i :: 0 <= i < |chats| ==> r[i] == TouchChat(chats[i], m)
  {
    seq(|chats|, i requires 0 <= i < |chats| => TouchChat(chats[i], m))
  }

  /** The comparator `new Date(b.updatedAt) - new Date(a.updatedAt)`. */
  function Recency(c: ClientChat): int { -c.updatedAt }

  predicate NewestFirst(chats: seq<ClientChat>) {
    forall i, j :: 0 <= i < j < |chats| ==> chats[i].updatedAt >= chats[j].updatedAt
  }

  /** The chat list after a message arrives: the chat of the message's room
      is touched, then the list is sorted newest first (a stable sort). */
  function ReceivedChats(chats: seq<ClientChat>, m: ClientMessage): (r: seq<ClientChat>)
    ensures |r| == |chats|
    ensures NewestFirst(r)
    ensures multiset(r) == multiset(TouchAll(chats, m))
  {
    var t := TouchAll(chats, m);
    var r := Sorting.SortBy(t, Recency);
    assert forall i, j :: 0 <= i < j < |r| ==> Recency(r[i]) <= Recency(r[j]);
    r
  }

  /** No chat is lost or invented: a chat of another room is still there as
      it was, the chat of the message's room is there with the new last
      message and time, and nothing else is. */
  lemma ReceivedChatsUpdatesOnlyItsRoom(chats: seq<ClientChat>, m: ClientMessage)
    ensures var r := ReceivedChats(chats, m);
      && (forall c :: c in chats && c.id != m.roomId ==> c in r)
      && (forall c :: c in chats && c.id == m.roomId ==>
            c.(lastMessage := Some(m), updatedAt := m.createdAt) in r)
      && (forall x :: x in r ==>
            (x in chats && x.id != m.roomId) ||
            (x.id == m.roomId && x.lastMessage == Some(m) && x.updatedAt == m.createdAt))
  {
    var t := TouchAll(chats, m);
    var r := ReceivedChats(chats, m);
    forall c | c in chats ensures TouchChat(c, m) in r {
      var i :| 0 <= i < |chats| && chats[i] == c;
      assert t[i] == TouchChat(c, m);
      assert TouchChat(c, m) in multiset(t);
    }
    forall x | x in r
      ensures (x in chats && x.id != m.roomId) ||
              (x.id == m.roomId && x.lastMessage == Some(m) && x.updatedAt == m.createdAt)
    {
      assert x in multiset(t);
      var i :| 0 <= i < |t| && t[i] == x;
      assert x == TouchChat(chats[i], m);
    }
  }

  /** A list already in order whose chats are all of other rooms comes back
      unchanged. */
  lemma ReceivedChatsOtherRoom(chats: seq<ClientChat>, m: ClientMessage)
    requires NewestFirst(chats)
    requires forall i :: 0 <= i < |chats| ==> chats[i].id != m.roomId
    ensures ReceivedChats(chats, m) == chats
  {
    assert TouchAll(chats, m) == chats;
    assert Sorting.SortedBy(chats, Recency);
    Sorting.SortBySorted(chats, Recency);
  }

  // ----- "message-deleted" -----

  /** `messages.filter(msg => msg._id !== id)`. */
  function WithoutMessage(messages: seq<ClientMessage>, id: Option<Id>): (r: seq<ClientMessage>)
    ensures forall x :: x in r <==> x in messages && x.id != id
    ensures |r| <= |messages|
  {
    if messages == [] then []
    else
      assert forall x :: x in messages <==> x == messages[0] || x in messages[1..];
      (if messages[0].id != id then [messages[0]] else []) + WithoutMessage(messages[1..], id)
  }

  /** The filter works piecewise, so the messages kept stay in their order. */
  lemma {:induction false} WithoutMessageConcat(a: seq<ClientMessage>, b: seq<ClientMessage>, id: Option<Id>)
    ensures WithoutMessage(a + b, id) == WithoutMessage(a, id) + WithoutMessage(b, id)
  {
    if a != [] {
      assert (a + b)[0] == a[0] && (a + b)[1..] == a[1..] + b;
      WithoutMessageConcat(a[1..], b, id);
    } else {
      assert a + b == b;
    }
  }

  /** Deleting an id that no message has changes nothing. */
  lemma {:induction false} WithoutMessageAbsent(messages: seq<ClientMessage>, id: Option<Id>)
    requires forall i :: 0 <= i < |messages| ==> messages[i].id != id
    ensures WithoutMessage(messages, id) == messages
  {
    if messages != [] {
      WithoutMessageAbsent(messages[1..], id);
    }
  }

  // ----- "message-updated" -----

  /** The message list after an edit: a message with the id gets the new
      content and is marked edited; every other message is left alone. */
  function EditedMessages(messages: seq<ClientMessage>, id: Option<Id>, newContent: Option<string>)
    : (r: seq<ClientMessage>)
    ensures |r| == |messages|
    ensures forall i :: 0 <= i < |r| && messages[i].id == id ==>
      r[i] == messages[i].(content := newContent, isEdited := true)
    ensures forall i :: 0 <= i < |r| && messages[i].id != id ==> r[i] == messages[i]
  {
    seq(|messages|, i requires 0 <= i < |messages| =>
      if messages[i].id == id then messages[i].(content := newContent, isEdited := true) else messages[i])
  }

  /** Replaying the same edit changes nothing more. */
  lemma EditedMessagesIdempotent(messages: seq<ClientMessage>, id: Option<Id>, newContent: Option<string>)
    ensures EditedMessages(EditedMessages(messages, id, newContent), id, newContent)
         == EditedMessages(messages, id, newContent)
  {
  }

  // ----- "user-typing" and "user-stop-typing" -----

  predicate HasTypingUser(typing: seq<TypingUser>, userId: Id) {
    exists i :: 0 <= i < |typing| && typing[i].userId == userId
  }

  /** At most one entry per user id. */
  predicate UniqueTypers(typing: seq<TypingUser>) {
    forall i, j :: 0 <= i < j < |typing| ==> typing[i].userId != typing[j].userId
  }

  /** A user starts typing: appended unless an entry has the same id. */
  function AddTypingUser(typing: seq<TypingUser>, u: TypingUser): (r: seq<TypingUser>)
    ensures HasTypingUser(typing, u.userId) ==> r == typing
    ensures !HasTypingUser(typing, u.userId) ==> r == typing + [u]
    ensures HasTypingUser(r, u.userId)
    ensures UniqueTypers(typing) ==> UniqueTypers(r)
  {
    if HasTypingUser(typing, u.userId) then typing
    else
      assert (typing + [u])[|typing|] == u;
      typing + [u]
  }

  /** A user stops typing: every entry with the id goes. */
  function RemoveTypingUser(typing: seq<TypingUser>, userId: Id): (r: seq<TypingUser>)
    ensures !HasTypingUser(r, userId)
    ensures forall v :: v in r <==> v in typing && v.userId != userId
    ensures |r| <= |typing|
  {
    if typing == [] then []
    else
      assert forall v :: v in typing <==> v == typing[0] || v in typing[1..];
      var r := (if typing[0].userId != userId then [typing[0]] else []) + RemoveTypingUser(typing[1..], userId);
      assert forall i :: 0 <= i < |r| ==> r[i] in r;
      r
  }

  /** An entry whose id no later entry has can go in front. */
  lemma ConsUniqueTypers(x: TypingUser, rest: seq<TypingUser>)
    requires UniqueTypers(rest)
    requires forall j :: 0 <= j < |rest| ==> rest[j].userId != x.userId
    ensures UniqueTypers([x] + rest)
  {
    var r := [x] + rest;
    forall a, b | 0 <= a < b < |r| ensures r[a].userId != r[b].userId {
      assert r[b] == rest[b - 1];
      if a > 0 { assert r[a] == rest[a - 1]; }
    }
  }

  /** The tail of a list without repeated ids has none either, nor the head's id. */
  lemma UniqueTypersTail(typing: seq<TypingUser>)
    requires UniqueTypers(typing) && typing != []
    ensures UniqueTypers(typing[1..])
    ensures forall v :: v in typing[1..] ==> v.userId != typing[0].userId
  {
    var tail := typing[1..];
    forall a, b | 0 <= a < b < |tail| ensures tail[a].userId != tail[b].userId {
      assert tail[a] == typing[a + 1] && tail[b] == typing[b + 1];
    }
    forall v | v in tail ensures v.userId != typing[0].userId {
      var k :| 0 <= k < |tail| && tail[k] == v;
      assert typing[k + 1] == v;
    }
  }

  /** Removing entries keeps the list free of repeated ids. */
  lemma {:induction false} RemoveTypingUserUnique(typing: seq<TypingUser>, userId: Id)
    requires UniqueTypers(typing)
    ensures UniqueTypers(RemoveTypingUser(typing, userId))
  {
    if typing != [] {
      var tail := typing[1..];
      UniqueTypersTail(typing);
      RemoveTypingUserUnique(tail, userId);
      var rest := RemoveTypingUser(tail, userId);
      if typing[0].userId != userId {
        forall j | 0 <= j < |rest| ensures rest[j].userId != typing[0].userId {
          assert rest[j] in rest;
        }
        ConsUniqueTypers(typing[0], rest);
        assert RemoveTypingUser(typing, userId) == [typing[0]] + rest;
      } else {
        assert RemoveTypingUser(typing, userId) == [] + rest;
      }
    }
  }

  /** The `isTyping` flag the stop handler sets: computed from the length of
      the list BEFORE the user is removed. */
  function StopTypingFlag(typing: seq<TypingUser>): bool {
    |typing| > 1
  }

  lemma {:induction false} RemovePresentTyper(typing: seq<TypingUser>, userId: Id)
    requires UniqueTypers(typing)
    requires HasTypingUser(typing, userId)
    ensures |RemoveTypingUser(typing, userId)| == |typing| - 1
  {
    if typing[0].userId == userId {
      forall i | 0 <= i < |typing[1..]| ensures typing[1..][i].userId != userId {
        assert typing[1..][i] == typing[i + 1];
      }
      assert !HasTypingUser(typing[1..], userId);
      RemoveAbsentTyper(typing[1..], userId);
    } else {
      var i :| 0 <= i < |typing| && typing[i].userId == userId;
      assert typing[1..][i - 1].userId == userId;
      assert UniqueTypers(typing[1..]) by {
        forall a, b | 0 <= a < b < |typing[1..]| ensures typing[1..][a].userId != typing[1..][b].userId {
          assert typing[1..][a] == typing[a + 1] && typing[1..][b] == typing[b + 1];
        }
      }
      RemovePresentTyper(typing[1..], userId);
    }
  }

  lemma {:induction false} RemoveAbsentTyper(typing: seq<TypingUser>, userId: Id)
    requires !HasTypingUser(typing, userId)
    ensures RemoveTypingUser(typing, userId) == typing
  {
    if typing != [] {
      forall i | 0 <= i < |typing[1..]| ensures typing[1..][i].userId != userId {
        assert typing[1..][i] == typing[i + 1];
      }
      RemoveAbsentTyper(typing[1..], userId);
    }
  }

  /** When the leaving user was listed once, the flag says exactly whether
      anyone is still typing. */
  lemma StopTypingFlagWhenPresent(typing: seq<TypingUser>, userId: Id)
    requires UniqueTypers(typing) && HasTypingUser(typing, userId)
    ensures StopTypingFlag(typing) <==> |RemoveTypingUser(typing, userId)| > 0
  {
    RemovePresentTyper(typing, userId);
  }

  /** When the leaving user was not listed, the flag can be wrong: one other
      user is still typing, yet the flag turns off. */
  lemma StopTypingFlagWhenAbsent()
    ensures var typing := [TypingUser(1, "ann")];
      && !StopTypingFlag(typing)
      && RemoveTypingUser(typing, 2) == typing
  {
    var typing := [TypingUser(1, "ann")];
    RemoveAbsentTyper(typing, 2);
  }

  // ----- shapes of the server replies as the client reads them -----

  /** The message the sender relays after a successful send: the reply body
      as it is, so it has no room id. */
  function RelayedMessage(sent: MessageControllers.SentMessage): (r: ClientMessage)
    ensures r.roomId.None? && r.id == Some(sent.id) && r.content == sent.content
  {
    ClientMessage(Some(sent.id), None, sent.content, false, sent.createdAt)
  }

  /** The reply lacks `roomId`, so a relayed message touches no chat that has
      an id, and joins the message list only when the open chat has no id
      either. */
  lemma RelayedMessageMissesItsRoom(chats: seq<ClientChat>, active: Option<ChatUser>,
                                    messages: seq<ClientMessage>, sent: MessageControllers.SentMessage)
    requires forall i :: 0 <= i < |chats| ==> chats[i].id.Some?
    ensures var m := RelayedMessage(sent);
      && TouchAll(chats, m) == chats
      && (ActiveRoomId(active).Some? ==> ReceivedMessages(messages, active, m) == messages)
  {
  }

  /** `startChatHandler`'s chat object, built from `data.room._id`. */
  function StartedChat(body: RoomControllers.DirectRoomBody, username: Option<string>): (r: ChatUser)
    ensures body.ExistingRoom? ==> r.id == Some(body.room.id)
    ensures body.NewRoom? ==> r.id.None?
    ensures !r.isGroup && r.name == username
  {
    match body
    case ExistingRoom(room) => ChatUser(Some(room.id), username, false)
    case NewRoom(_, _, _) => ChatUser(None, username, false)
  }

  /** The guard `if (!chatObj?.id) return;` of `getMessagesForUser`. */
  predicate OpensChat(c: ChatUser) {
    c.id.Some?
  }

  /** A newly created direct room is returned with `id`, not `_id`, so the
      chat the client builds from it has no id and is never opened; only a
      room that already existed is. */
  lemma NewDirectRoomNotOpened(body: RoomControllers.DirectRoomBody, username: Option<string>)
    ensures OpensChat(StartedChat(body, username)) <==> body.ExistingRoom?
  {
  }

  /** The request `sendMessageHandler` posts. */
  datatype SendPayload = SendPayload(roomId: Id, content: string)

  class ChatStore {
    var chats: seq<ClientChat>
    var activeChatUser: Option<ChatUser>
    var messages: seq<ClientMessage>
    var isTyping: bool
    var typingUsers: seq<TypingUser>
    var message: string

    /** The typing list never holds a user twice. */
    ghost predicate Valid()
      reads this
    {
      UniqueTypers(typingUsers)
    }

    constructor ()
      ensures Valid()
      ensures chats == [] && activeChatUser.None? && messages == []
      ensures !isTyping && typingUsers == [] && message == ""
    {
      chats, activeChatUser, messages := [], None, [];
      isTyping, typingUsers, message := false, [], "";
    }

    method SetActiveChatUser(chatUser: Option<ChatUser>)
      requires Valid()
      modifies this
      ensures Valid()
      ensures activeChatUser == chatUser
      ensures chats == old(chats) && messages == old(messages) && isTyping == old(isTyping)
      ensures typingUsers == old(typingUsers) && message == old(message)
    {
      activeChatUser := chatUser;
    }

    method SetMessage(text: string)
      requires Valid()
      modifies this
      ensures Valid()
      ensures message == text
      ensures chats == old(chats) && activeChatUser == old(activeChatUser) && messages == old(messages)
      ensures isTyping == old(isTyping) && typingUsers == old(typingUsers)
    {
      message := text;
    }

    /** "message received". */
    method OnMessageReceived(m: ClientMessage)
      requires Valid()
      modifies this
      ensures Valid()
      ensures messages == ReceivedMessages(old(messages), old(activeChatUser), m)
      ensures chats == ReceivedChats(old(chats), m)
      ensures |chats| == |old(chats)| && NewestFirst(chats)
      ensures activeChatUser == old(activeChatUser) && isTyping == old(isTyping)
      ensures typingUsers == old(typingUsers) && message == old(message)
    {
      var isActiveChat := ActiveRoomId(activeChatUser) == m.roomId;
      if isActiveChat {
        messages := messages + [m];
      }
      chats := ReceivedChats(chats, m);
    }

    /** "message-deleted". */
    method OnMessageDeleted(deletedId: Option<Id>)
      requires Valid()
      modifies this
      ensures Valid()
      ensures messages == WithoutMessage(old(messages), deletedId)
      ensures forall x :: x in messages ==> x.id != deletedId
      ensures chats == old(chats) && activeChatUser == old(activeChatUser) && isTyping == old(isTyping)
      ensures typingUsers == old(typingUsers) && message == old(message)
    {
      messages := WithoutMessage(messages, deletedId);
    }

    /** "message-updated"; `newContent` is `newContent?.content`. */
    method OnMessageUpdated(messageId: Option<Id>, newContent: Option<string>)
      requires Valid()
      modifies this
      ensures Valid()
      ensures messages == EditedMessages(old(messages), messageId, newContent)
      ensures chats == old(chats) && activeChatUser == old(activeChatUser) && isTyping == old(isTyping)
      ensures typingUsers == old(typingUsers) && message == old(message)
    {
      messages := EditedMessages(messages, messageId, newContent);
    }

    /** "user-typing". */
    method OnUserTyping(u: TypingUser)
      requires Valid()
      modifies this
      ensures Valid()
      ensures typingUsers == AddTypingUser(old(typingUsers), u) && isTyping
      ensures chats == old(chats) && activeChatUser == old(activeChatUser) && messages == old(messages)
      ensures message == old(message)
    {
      typingUsers := AddTypingUser(typingUsers, u);
      isTyping := true;
    }

    /** "user-stop-typing". */
    method OnUserStopTyping(userId: Id)
      requires Valid()
      modifies this
      ensures Valid()
      ensures typingUsers == RemoveTypingUser(old(typingUsers), userId)
      ensures isTyping == StopTypingFlag(old(typingUsers))
      ensures chats == old(chats) && activeChatUser == old(activeChatUser) && messages == old(messages)
      ensures message == old(message)
    {
      var before := typingUsers;
      RemoveTypingUserUnique(typingUsers, userId);
      typingUsers := RemoveTypingUser(typingUsers, userId);
      isTyping := |before| > 1;
    }

    /** `sendMessageHandler`. Nothing is sent for a blank message (all white
      space, so that `trim` leaves nothing; see `Text.TrimSpec`) or when no
      chat with an id is open; otherwise the raw text is posted to the open
      chat, and the composer is cleared once `sent` reports success. */
    method SendMessageHandler(sent: bool) returns (payload: Option<SendPayload>)
      requires Valid()
      modifies this
      ensures Valid()
      ensures Text.AllTrimmable(old(message)) || ActiveRoomId(old(activeChatUser)).None? ==>
        payload.None? && message == old(message)
      ensures !Text.AllTrimmable(old(message)) && ActiveRoomId(old(activeChatUser)).Some? ==>
        && payload == Some(SendPayload(ActiveRoomId(old(activeChatUser)).value, old(message)))
        && message == (if sent then "" else old(message))
      ensures chats == old(chats) && activeChatUser == old(activeChatUser) && messages == old(messages)
      ensures isTyping == old(isTyping) && typingUsers == old(typingUsers)
    {
      var roomId := ActiveRoomId(activeChatUser);
      var blank := Text.AllTrimmable(message);
      if blank || roomId.None? {
        payload := None;
      } else {
        payload := Some(SendPayload(roomId.value, message));
        if sent {
          message := "";
        }
      }
    }
  }
}
