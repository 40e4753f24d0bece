# ChatApp core, modelled in Dafny

ChatApp is a chat service with a Node/Express and MongoDB server and a React client. This project models its core logic and proves properties of it:

- **Server:**
  - the room directory: direct chats and group chats;
  - sending and listing messages, including the masking of anonymous senders;
  - the chat-list projection;
  - user search;
  - the schemas of rooms, messages and anonymous identities.
- **Client:**
  - the chat store's socket reducers, send guard and setters;
  - the group-creation dialog's member selection and Create Group predicate;
  - the layout store's toggles;
  - the password rule and form schemas of the registration and login pages.

The model is organised as follows:

- The MongoDB collections are sequences held by one `Database.Store` object. Each query becomes a search or filter over one sequence, and each write becomes a method that keeps the store's invariants:
  - distinct ids;
  - well-formed rooms;
  - at most one direct room per pair of users;
  - senders were members of their room;
  - a room's last message belongs to it;
  - at most one anonymous identity per user and room.
- The handlers that change the store (`createDirectChat`, `createGroupChat`, `sendMessage`) are methods over that object.
- The read-only handlers (`getMessages`, `getChats`, `searchUsers`) are functions of the collections.
- The client stores are classes whose methods assign each field the value a pure function computes from the old state.

Modelling conventions:

- Ids are natural numbers, and fresh ids come from a counter.
- Timestamps are integers; the current time is a parameter `now`.
- A missing JavaScript value (`undefined` or `null`) is `None`.
- A handler's reply is `Ok(status, body)` or `Fail(status, message)`.
- Sorting is one stable insertion sort by an integer key. A descending sort uses the negated key.

What the code does and what its callers expect sometimes differ. The model keeps the code as written and states each difference as a lemma:

- **Send reply has no room id.** The reply to a send has no `roomId`, but the client matches received messages on `roomId`. The relayed message therefore never touches a chat with an id (`ChatState.RelayedMessageMissesItsRoom`).
- **New direct room reply uses `id`.** A newly created direct room is returned with `id`, but the client reads `_id`. The chat built from it is therefore never opened (`ChatState.NewDirectRoomNotOpened`).
- **Stop-typing flag uses the old list's length.** The flag comes from the list before removal. It is right when the user was listed once, and wrong otherwise (`ChatState.StopTypingFlagWhenPresent`, `ChatState.StopTypingFlagWhenAbsent`).
- **Client group-name check is looser.** The client enables Create Group for any non-blank name, but the server wants three characters (`GroupCreation.CreateEnabledShortName`).
- **Password regex and indicators disagree on line terminators.** The indicators ignore line terminators and the regular expression does not (`PasswordPolicy.IndicatorsWithoutRegex`).
- **Search results keep `emailLocal`.** The search projection removes `email` but keeps the computed `emailLocal`, which is the lower-cased local part of the email. `UserControllers.PublicUser` carries it as the code does (`UserControllers.SearchEntryCarriesEmailLocal`).
- **Closing the group dialog keeps the selection.** The close (×) and Cancel handlers hide the dialog and then call `setSearchText`, which no scope declares. The call throws, so `setSelectedUsers([])` and `setGroupName("")` never run. Reopening shows the old selection and the old name (`GroupCreation.Close`, `GroupCreation.ReopenKeepsSelection`, `GroupCreation.ReopenShowsStaleSelection`). The intended clearing is `GroupCreation.CloseIntended`.
- **An open dialog with a finished search does not render.** With a non-empty search text and no search running, the user list evaluates `isUserLoadingError`, which is not a prop and is declared nowhere. Rendering throws, so the result list whose click handler `GroupCreation.MemberSelection.Click` models is never shown (`GroupCreation.Render`).
- **The group dialog never opens from the home page.** `client/src/pages/Home.jsx:37` renders `ConversationSidebar` and `client/src/pages/Home.jsx:40` renders `GroupCreationModal`, both without props. The sidebar's `setShowGroupModal(true)` (`client/src/components/ConversationSidebar.jsx:86`) calls `undefined`, and the dialog's `showGroupModal` is `undefined`, so the dialog returns `null`. The model's dialog members take the store's flag as an input instead, as the wiring evidently intends.
- **Chat list exposes anonymous senders.** The chat list's `lastMessage` carries the sender id even for anonymous messages (`ChatControllers.AnonymousLastMessageExposesSender`).

## Model

| member | source | states |
|---|---|---|
| Models.RoomTypeOf | server/models/Room.js:9-13 | no type gives `group`; a given type is accepted iff it is `direct`, `group` or `anonymous_group`, and maps back to that spelling |
| Models.Present | server/models/Room.js:14-20 | the member ids of an all-present list, one per entry, in order |
| Models.CreateRoom | server/models/Room.js:5-38 | creation succeeds iff the type is in the enumeration and every member reference is present; otherwise the enumeration or required error; a new room keeps name, admins and members, has no last message unless given, `isAnonymousWorld` false by default, and both timestamps `now` |
| Models.CreateMessage | server/models/Message.js:5-37 | creation succeeds iff room and sender are present (room checked first); content is stored trimmed, so it is a trimmed string; `isEdited` and `isAnonymous` default to false; the anonymous profile is kept as given; both timestamps `now` |
| Models.CreateIdentity | server/models/Anonymous.js:5-24 | creation succeeds iff user, room and a non-empty alias are present; the avatar seed is optional and kept as given; both timestamps `now` |
| Database.Store.InsertRoom | server/models/Room.js:1-41 | `Room.create`: the reply is the schema's verdict on the fields; on success exactly that room is appended with the next id; otherwise nothing changes; the invariants are kept |
| Database.Store.SaveMessage | server/models/Message.js:1-41 | `message.save()`: the reply is the schema's verdict; on success exactly that message is appended; otherwise nothing changes; the invariants are kept |
| Database.Store.TouchRoom | server/controllers/messageControllers.js:47-49 | the room at the index gets `lastMessage` = the message id and `updatedAt` = now; all else is unchanged; the invariants are kept |
| Database.Store.InsertIdentity | server/models/Anonymous.js:27-28 | a schema failure is reported and stores nothing; a second identity for the same user and room is refused with a duplicate-key error; otherwise the identity is appended; one identity per user and room always holds |
| Database.AppendRoomKeepsInvariant | server/controllers/roomControllers.js:15-32 | a well-formed room under the fresh id, not repeating a stored direct pair, keeps every store invariant |
| Database.AppendMessageKeepsInvariant | server/controllers/messageControllers.js:18-44 | a message under the fresh id from a member of its room keeps every store invariant |
| Database.TouchKeepsInvariant | server/controllers/messageControllers.js:47-49 | pointing a room at one of its own stored messages keeps every store invariant |
| Database.AppendIdentityKeepsInvariant | server/models/Anonymous.js:27-28 | an identity under the fresh id for a new user and room keeps every store invariant |
| Database.NewDirectRoomDistinct | server/controllers/roomControllers.js:16-32 | a direct room created after the pair lookup found nothing does not join the pair of any existing direct room |
| RoomControllers.FindDirectRoomSymmetric | server/controllers/roomControllers.js:16-19 | the direct-room lookup gives the same room whichever order the two users are given in |
| RoomControllers.FindDirectRoomAfterCreate | server/controllers/roomControllers.js:29-32 | after the pair's room is appended, the lookup finds it from either side, so a repeated request returns it |
| RoomControllers.CreateDirectChat | server/controllers/roomControllers.js:5-45 | a missing target is a 500 and a self-chat a 400, both changing nothing; an existing direct room for the pair in either order is returned with 200 and nothing changes; otherwise exactly one direct room `[caller, target]` with no admins is appended and 201 returns its id, members and type; afterwards the lookup from either side finds the returned room |
| RoomControllers.CountUsersAmongSnoc | server/controllers/roomControllers.js:70-72 | counting the users among `ids + [x]` adds the users with id `x` |
| RoomControllers.CountWithIdDistinct | server/controllers/roomControllers.js:70-72 | with distinct user ids, at most one user carries an id, and one does iff the lookup finds it |
| RoomControllers.CountUsersAmongIff | server/controllers/roomControllers.js:70-76 | with distinct users and a duplicate-free id list, the `$in` count never exceeds the list and equals it iff every id names a user |
| RoomControllers.CountUsersAmongNone | server/controllers/roomControllers.js:70-72 | no user matches an empty id list |
| RoomControllers.ValidateGroup | server/controllers/roomControllers.js:53-76 | the four checks in order: name missing or shorter than 3 once trimmed; fewer than 2 members or not a list; a repeated id or the creator listed; an id that is no user; each gives its 400 message; it succeeds iff all four pass, with the trimmed name and the members followed by the creator, at least 3 and all distinct |
| RoomControllers.GroupRoomCreated | server/controllers/roomControllers.js:78-84 | the fields of a valid plan create a well-formed group room with the trimmed name, the members followed by the creator, and the creator as only admin |
| RoomControllers.CreateGroupChat | server/controllers/roomControllers.js:48-99 | a failed validation is replied and changes nothing; a valid request appends one group room with the trimmed name, the members with the creator last and the creator as its only admin, and 201 returns that room |
| MessageControllers.PopulateSender | server/controllers/messageControllers.js:52 | the populated sender is null iff no user has the id, otherwise that user's id, username and avatar |
| MessageControllers.SendMessage | server/controllers/messageControllers.js:6-60 | a missing room id or blank content is a 400, checked before access; a non-member gets a 403; neither stores anything; otherwise one message is stored with the room, the caller and the trimmed content; that room's `lastMessage` becomes its id and `updatedAt` now; 201 returns the message without a room id |
| MessageControllers.RoomMessages | server/controllers/messageControllers.js:92 | exactly the stored messages of the room |
| MessageControllers.RoomMessagesConcat | server/controllers/messageControllers.js:92 | the filter acts piecewise on a split collection, so the room's messages keep their storage order |
| MessageControllers.OrderedMessages | server/controllers/messageControllers.js:92-93 | the room's messages, every one of them once, no other, in ascending `createdAt` |
| MessageControllers.OrderedMessagesStable | server/controllers/messageControllers.js:93 | messages with equal timestamps keep their storage order |
| MessageControllers.RoomMessagesSorted | server/controllers/messageControllers.js:92-93 | the room's messages of a time-ordered collection are time-ordered |
| MessageControllers.OrderedMessagesInStorageOrder | server/controllers/messageControllers.js:92-93 | when messages were stored in time order, the listing is exactly the storage order |
| MessageControllers.ProfileOf | server/controllers/messageControllers.js:98-101 | the populated anonymous profile is the stored identity with that id, or null when there is none |
| MessageControllers.AnonymousSender | server/controllers/messageControllers.js:108-113 | a masked sender has a null id, the alias or "Anonymous", and an avatar URL made of the fixed prefix and the seed or "default" |
| MessageControllers.FormatMessage | server/controllers/messageControllers.js:104-117 | an entry keeps id, content, flag and timestamps; an anonymous message gets the masked sender, any other its populated sender |
| MessageControllers.AnonymousSenderHidden | server/controllers/messageControllers.js:108-114 | the entry of an anonymous message does not depend on who sent it, and its sender id is null |
| MessageControllers.GetMessages | server/controllers/messageControllers.js:74-125 | a requester who is not a member gets 403; a member gets 200 with one entry per message of the room, each the formatted message, with the room id, its type and the requester |
| MessageControllers.GetMessagesOldestFirst | server/controllers/messageControllers.js:92-93 | the listed messages are in ascending time order |
| ChatControllers.RoomsOf | server/controllers/chatControllers.js:14-16 | exactly the rooms the caller is a member of |
| ChatControllers.RoomsOfConcat | server/controllers/chatControllers.js:14-16 | the filter acts piecewise on a split collection, so the caller's rooms keep their storage order |
| ChatControllers.OrderedRooms | server/controllers/chatControllers.js:14-31 | the caller's rooms, each once and no other, newest `updatedAt` first |
| ChatControllers.OrderedRoomsStable | server/controllers/chatControllers.js:31 | rooms updated at the same instant keep their storage order |
| ChatControllers.Others | server/controllers/chatControllers.js:18-22 | the populated members are the existing users among the members other than the caller |
| ChatControllers.PopulateProfile | server/controllers/chatControllers.js:26-29 | the populated profile is a stored identity's alias and seed, or null |
| ChatControllers.PopulateLastMessage | server/controllers/chatControllers.js:23-30 | the populated last message is the stored message's content, sender, time and flag, or null when unset or missing |
| ChatControllers.AnonymousLastMessageExposesSender | server/controllers/chatControllers.js:23-30 | the last message of a chat, when anonymous, still shows its real sender's id |
| ChatControllers.PeerName | server/controllers/chatControllers.js:42 | the other user's username, or "Unknown User" when it is empty |
| ChatControllers.ChatEntryOf | server/controllers/chatControllers.js:34-55 | `isGroup` iff the type is not direct; a group or anonymous room keeps its name and has no avatar; a direct room with another member left is named after that member and takes their avatar; id, type, time and populated last message are carried over |
| ChatControllers.GetChats | server/controllers/chatControllers.js:6-58 | one entry per room of the caller, each the projection of the room at that rank, with `updatedAt` descending |
| ChatControllers.DirectChatNamedAfterPeer | server/controllers/chatControllers.js:40-44 | a direct room between the caller and a registered user is shown under that user's name and avatar, not as a group |
| UserControllers.EscapeRegex | server/controllers/userControllers.js:17 | escaping never shortens the term |
| UserControllers.EscapeConcat | server/controllers/userControllers.js:17 | the escape works piecewise over concatenation |
| UserControllers.EscapeChar | server/controllers/userControllers.js:17 | a metacharacter gets a backslash before it; any other character is kept |
| UserControllers.EscapePlain | server/controllers/userControllers.js:17 | a term with no metacharacter is its own pattern |
| UserControllers.UnescapeEscape | server/controllers/userControllers.js:14-17 | reading the escaped pattern back gives the term, and the pattern is well escaped |
| UserControllers.EscapeUnescape | server/controllers/userControllers.js:17 | every well-escaped pattern is the escape of the term it stands for |
| UserControllers.ToLowerIdempotent | server/controllers/userControllers.js:14 | lower-casing twice is lower-casing once |
| UserControllers.EmailLocal | server/controllers/userControllers.js:38-46 | the lower-cased email up to its first `@`, containing no `@` |
| UserControllers.EscapedMatch | server/controllers/userControllers.js:48-55 | a case-insensitive match of the escaped pattern is a substring occurrence of the lower-cased term |
| UserControllers.MatchStage | server/controllers/userControllers.js:27-55 | exactly the users who are not the requester, on neither block list, and whose username or email local part matches |
| UserControllers.MatchStageConcat | server/controllers/userControllers.js:27-55 | the match stages act piecewise on a split collection, so the matches keep their storage order |
| UserControllers.MatchStageFindsTerm | server/controllers/userControllers.js:14-55 | with the escaped search term the match stage keeps exactly the visible users in whose username or email local part the term occurs |
| UserControllers.ProjectFirst | server/controllers/userControllers.js:57-64 | the first `n` matches projected, in order, and all of them when there are at most `n` |
| UserControllers.SearchUsers | server/controllers/userControllers.js:4-67 | fails with 400 iff the query is missing or shorter than 2 once trimmed; otherwise 200 with at most 15 entries, the first matches of the escaped term in storage order, projected without password, email or block lists |
| UserControllers.SearchUsersSound | server/controllers/userControllers.js:27-55 | every returned user is visible, neither the requester nor blocked either way, and the term occurs in its username or email local part |
| UserControllers.SearchUsersComplete | server/controllers/userControllers.js:48-64 | with at most 15 matches, every visible user the term occurs in is returned |
| UserControllers.SearchEntryCarriesEmailLocal | server/controllers/userControllers.js:37-63 | every search entry carries the lower-cased email local part of the user it stands for, although `email` is projected away |
| ChatState.ReceivedMessages | client/src/stores/useChatStore.js:198-202 | the message is appended iff its room id equals the open chat's id (also when both are undefined); otherwise the list is kept |
| ChatState.TouchChat | client/src/stores/useChatStore.js:205-213 | the chat of the message's room gets the message as last message and its time; any other chat is kept |
| ChatState.TouchAll | client/src/stores/useChatStore.js:204-214 | each chat touched in place, the count kept |
| ChatState.ReceivedChats | client/src/stores/useChatStore.js:204-215 | the touched chats, the same count and the same multiset, newest first |
| ChatState.ReceivedChatsUpdatesOnlyItsRoom | client/src/stores/useChatStore.js:204-215 | every chat of another room is still there unchanged, the chat of the room is there updated, and nothing else is |
| ChatState.ReceivedChatsOtherRoom | client/src/stores/useChatStore.js:204-215 | an ordered list with no chat of the message's room comes back unchanged |
| ChatState.WithoutMessage | client/src/stores/useChatStore.js:226-228 | exactly the messages whose id differs from the deleted one |
| ChatState.WithoutMessageConcat | client/src/stores/useChatStore.js:226-228 | the filter works piecewise, so the kept messages stay in order |
| ChatState.WithoutMessageAbsent | client/src/stores/useChatStore.js:226-228 | deleting an id no message has changes nothing |
| ChatState.EditedMessages | client/src/stores/useChatStore.js:234-238 | same length; a message with the id gets the new content and is marked edited; every other message is unchanged |
| ChatState.EditedMessagesIdempotent | client/src/stores/useChatStore.js:234-238 | replaying the same edit changes nothing more |
| ChatState.AddTypingUser | client/src/stores/useChatStore.js:244-246 | the user is appended unless an entry has the same id; afterwards the user is listed; uniqueness by id is kept |
| ChatState.RemoveTypingUser | client/src/stores/useChatStore.js:253-255 | exactly the entries with another id remain |
| ChatState.RemoveTypingUserUnique | client/src/stores/useChatStore.js:253-255 | removal keeps the list free of repeated ids |
| ChatState.RemovePresentTyper | client/src/stores/useChatStore.js:253-255 | removing a user listed once shortens the list by one |
| ChatState.RemoveAbsentTyper | client/src/stores/useChatStore.js:253-255 | removing an unlisted user changes nothing |
| ChatState.StopTypingFlagWhenPresent | client/src/stores/useChatStore.js:251-258 | when the leaving user was listed once, the flag is on iff someone is still typing |
| ChatState.StopTypingFlagWhenAbsent | client/src/stores/useChatStore.js:251-258 | when the leaving user was not listed, the flag can turn off while another user is still typing |
| ChatState.RelayedMessage | client/src/stores/useChatStore.js:121-125 | the relayed message is the send reply as it is: its id and content, no room id |
| ChatState.RelayedMessageMissesItsRoom | client/src/stores/useChatStore.js:196-215 | the relayed message touches no chat that has an id, and joins the message list of no open chat that has an id |
| ChatState.StartedChat | client/src/stores/useChatStore.js:138-143 | the chat object built from `data.room._id` has the room's id for an existing room and none for a new room; it is not a group and carries the username |
| ChatState.NewDirectRoomNotOpened | client/src/stores/useChatStore.js:39 | the chat built from a direct-chat reply passes the open guard iff the room already existed |
| ChatState.ChatStore.constructor | client/src/stores/useChatStore.js:20-25 | no chats, no open chat, no messages, not typing, nobody typing, an empty message |
| ChatState.ChatStore.SetActiveChatUser | client/src/stores/useChatStore.js:35 | sets the open chat and nothing else |
| ChatState.ChatStore.SetMessage | client/src/stores/useChatStore.js:36 | sets the draft message and nothing else |
| ChatState.ChatStore.OnMessageReceived | client/src/stores/useChatStore.js:196-222 | messages and chats become their received values; the chats stay as many and newest first; nothing else changes |
| ChatState.ChatStore.OnMessageDeleted | client/src/stores/useChatStore.js:224-230 | the messages with the id are gone and the rest kept; nothing else changes |
| ChatState.ChatStore.OnMessageUpdated | client/src/stores/useChatStore.js:232-240 | messages become their edited values; nothing else changes |
| ChatState.ChatStore.OnUserTyping | client/src/stores/useChatStore.js:242-249 | the user is added unless listed, `isTyping` turns on, uniqueness is kept; nothing else changes |
| ChatState.ChatStore.OnUserStopTyping | client/src/stores/useChatStore.js:251-258 | the user's entries go, `isTyping` is whether the old list had more than one entry, uniqueness is kept; nothing else changes |
| ChatState.ChatStore.SendMessageHandler | client/src/stores/useChatStore.js:107-131 | nothing is sent and nothing changes when the draft is blank or no chat with an id is open; otherwise the payload is the open chat's id and the draft as typed, and the draft is cleared exactly when the send succeeds |
| GroupCreation.Toggle | client/src/components/GroupCreationModal.jsx:189-197 | clicking a selected id removes it and keeps every other id; clicking another id appends it |
| GroupCreation.ToggleKeepsDistinct | client/src/components/GroupCreationModal.jsx:180-197 | clicking never creates a repeated id |
| GroupCreation.DeselectKeepsOrder | client/src/components/GroupCreationModal.jsx:190-193 | deselecting an id listed once leaves the other ids in their order |
| GroupCreation.ToggleTwice | client/src/components/GroupCreationModal.jsx:189-197 | clicking an unselected user twice restores the selection |
| GroupCreation.CreateEnabledMeetsMemberCheck | client/src/components/GroupCreationModal.jsx:265-267 | an enabled Create Group sends at least the two members the server requires |
| GroupCreation.CreateEnabledShortName | client/src/components/GroupCreationModal.jsx:265-267 | a two-letter name enables Create Group, yet the server's three-character check refuses it |
| GroupCreation.Render | client/src/components/GroupCreationModal.jsx:24-179 | nothing is rendered iff the dialog is hidden; an open dialog throws iff the search text is non-empty and no search runs, since `isUserLoadingError` is undeclared; otherwise it shows the selection, the spinner iff there is search text, and enables Create Group iff the name is non-blank, two or more users are selected and no creation is running |
| GroupCreation.ReopenShowsStaleSelection | client/src/components/GroupCreationModal.jsx:24-179 | a reopened dialog still holding two users and the name "team" shows them with Create Group enabled |
| GroupCreation.MemberSelection.constructor | client/src/components/GroupCreationModal.jsx:10-13 | an empty selection and an empty name |
| GroupCreation.MemberSelection.Click | client/src/components/GroupCreationModal.jsx:189-197 | the selection becomes its toggle, stays duplicate-free, and the name is kept |
| GroupCreation.MemberSelection.RemoveChip | client/src/components/GroupCreationModal.jsx:146-150 | every occurrence of the id is removed; the selection stays duplicate-free and the name is kept |
| GroupCreation.MemberSelection.SetGroupName | client/src/components/GroupCreationModal.jsx:72 | sets the name and keeps the selection |
| GroupCreation.MemberSelection.Clear | client/src/components/GroupCreationModal.jsx:256-257 | the selection and the name are cleared, and the selection is trivially duplicate-free |
| GroupCreation.Close | client/src/components/GroupCreationModal.jsx:251-257 | as written: the dialog is hidden, the rest of the layout store is kept, and the selection and the name are left unchanged because `setSearchText` throws first |
| GroupCreation.CloseIntended | client/src/components/GroupCreationModal.jsx:251-257 | as intended: the dialog is hidden, the rest of the layout store is kept, and the selection and the name are cleared |
| GroupCreation.ReopenKeepsSelection | client/src/components/GroupCreationModal.jsx:24-59 | closing and reopening, as written, renders the old selection and the old Create Group state |
| GroupCreation.ReopenIntendedClears | client/src/components/GroupCreationModal.jsx:24-59 | closing and reopening, as intended, renders an empty selection with Create Group disabled |
| UIState.UIStore.constructor | client/src/stores/useUIStore.js:4-16 | the sidebar open, anonymous mode off, the dialog hidden |
| UIState.UIStore.ToggleSidebar | client/src/stores/useUIStore.js:6 | negates `sidebarOpen` and changes nothing else |
| UIState.UIStore.SetSidebarOpen | client/src/stores/useUIStore.js:7 | sets `sidebarOpen` and nothing else |
| UIState.UIStore.SetIsAnonymous | client/src/stores/useUIStore.js:10 | sets `isAnonymous` and nothing else |
| UIState.UIStore.SetShowGroupModal | client/src/stores/useUIStore.js:13 | sets `showGroupModal` and nothing else |
| UIState.UIStore.ToggleGroupModal | client/src/stores/useUIStore.js:14-15 | negates `showGroupModal` and changes nothing else |
| UIState.ToggleSidebarTwice | client/src/stores/useUIStore.js:6 | toggling the sidebar twice leaves the whole store as it was |
| UIState.ToggleGroupModalTwice | client/src/stores/useUIStore.js:14-15 | toggling the dialog twice leaves the whole store as it was |
| PasswordPolicy.LookaheadFinds | client/src/pages/RegistrationForm.jsx:28 | a lookahead that succeeds has found a character of its class |
| PasswordPolicy.LookaheadOnOneLine | client/src/pages/RegistrationForm.jsx:28 | on a string without line terminators a lookahead succeeds iff the class occurs |
| PasswordPolicy.PasswordRegexMeaning | client/src/pages/RegistrationForm.jsx:28 | the regex holds iff the password has no line terminator, 8 or more characters, an uppercase letter, a lowercase letter and a digit |
| PasswordPolicy.StrongIffIndicators | client/src/pages/RegistrationForm.jsx:207-223 | for a password without line terminators, the regex holds iff all four indicators are met |
| PasswordPolicy.IndicatorsWithoutRegex | client/src/pages/RegistrationForm.jsx:207-223 | "Passw0rd" plus a newline meets all four indicators and fails the regex |
| AuthForms.PasswordIssues | client/src/pages/RegistrationForm.jsx:34-37 | the password field reports the length issue iff it is shorter than 8 and the weakness issue iff the regex fails, and no issue iff the regex holds |
| AuthForms.RegistrationIssues | client/src/pages/RegistrationForm.jsx:30-43 | a username shorter than 2, a bad email and a confirmation that differs each report their issue exactly when they occur; a short password reports its issue; no issue at all iff every rule holds |
| AuthForms.AcceptedRegistrationPassword | client/src/pages/RegistrationForm.jsx:28-43 | an accepted registration has a confirmed password with 8 or more characters, no line terminator, and all three character classes |
| AuthForms.LoginIssues | client/src/pages/LoginForm.jsx:25-31 | a bad email reports its issue exactly when it occurs; a short password reports its issue; no issue iff the email is valid and the shared password rule holds |
| AuthForms.LoginNeedsAllClasses | client/src/pages/LoginForm.jsx:23-30 | a login password lacking a lowercase letter, an uppercase letter or a digit gets the weakness issue |
| AuthForms.RegistrationStrength | client/src/pages/RegistrationForm.jsx:165-183 | no label for an empty password; "Strong" iff the regex holds, "Weak" otherwise |
| AuthForms.LoginStrength | client/src/pages/LoginForm.jsx:129-145 | no label for an empty password; "Strong password" iff the regex holds, "Needs improvement" otherwise |
| Text.TrimSpec | server/models/Message.js:16-19 | the trimmed string has no leading or trailing white space, is no longer than the input, and is empty iff the input is all white space |
| Text.TrimStartSpec | server/models/Message.js:16-19 | removing leading white space leaves a suffix that does not start with white space, and all that was removed is white space |
| Text.TrimEndSpec | server/models/Message.js:16-19 | removing trailing white space leaves a prefix that does not end with white space, and all that was removed is white space |
| Text.TrimOfTrimmed | server/models/Message.js:16-19 | a string with no white space at either end is left as it is |
| Text.TrimCharacterization | server/controllers/messageControllers.js:34 | trimming removes exactly the leading and trailing white space around the rest |
| Text.TrimIdempotent | server/models/Message.js:16-19 | trimming already-trimmed content changes nothing |
| Text.ToLower | server/controllers/userControllers.js:14 | lower-casing acts character by character and keeps the length |
| Text.BeforeFirst | server/controllers/userControllers.js:40-44 | the part before the first separator, a prefix without it, followed by it when shorter than the input |
| Collections.Dedup | server/controllers/roomControllers.js:63 | the set spread keeps each element once, keeps no other, and never grows the list |
| Collections.FirstIndex | server/controllers/roomControllers.js:63 | the position of the first occurrence: it holds the element and no earlier position does |
| Collections.DedupFirstOccurrenceOrder | server/controllers/roomControllers.js:63 | the set spread lists the elements in the order of their first occurrences |
| Collections.DedupKeepsLengthIff | server/controllers/roomControllers.js:63-67 | deduplicating keeps the length iff there was no repeated element |
| Collections.RemoveAll | client/src/components/GroupCreationModal.jsx:146-150 | the filter removes every occurrence of the element and keeps every other |
| Sorting.SortBy | server/controllers/chatControllers.js:31 | the sorted list is a permutation of the input, ordered by the key |
| Sorting.SortByStable | client/src/stores/useChatStore.js:215 | elements with equal keys keep their relative order |

## Left out

- Concerns outside the model:
  - Real-time fan-out, room subscriptions, typing expiry, and server-side edit and delete. The server wires no sockets, and the routes import edit and delete handlers that the message controller does not export. Edit and delete exist only as the client reducers.
  - Authentication: password hashing, JWT signing and checks, and the route guards. These are foreign calls. The caller's id is a parameter.
  - The client's network actions: loading messages and chats, starting chats, creating groups, the edit and delete requests, connecting sockets, debounced search. These are asynchronous I/O. Only the shapes they read are modelled (`ChatState.StartedChat`, `ChatState.RelayedMessage`).
  - All JSX rendering beyond the dialog's `null` guard, its search-list branches and its Create Group state.
  - Concurrency: each request is handled to completion before the next, and interleavings at `await` points are not modelled. Two consequences follow.
    - `server/controllers/roomControllers.js:15-32` looks up a direct room and then creates one, and `server/models/Room.js` declares no unique index (the only one is `server/models/Anonymous.js:28`). Two concurrent requests can therefore create two direct rooms for one pair, so `Database.DirectRoomsUnique` is an invariant of the model and not of the server.
    - The send handler sets the room's `lastMessage` on a room it read earlier and saves it (`server/controllers/messageControllers.js:47-49`). An interleaved send can overwrite a newer `lastMessage` with an older one.
  - The realtime relay of sent messages, and the emission of `stop-typing` and `newMessage`, belong to the socket layer.
- Inputs taken as given:
  - Zod's email check is an input `emailValid`.
  - The current time is a parameter `now`.
  - MongoDB's query and aggregation engine and the regular-expression engine are replaced by explicit filters, substring search and integer sort keys.
- Behaviour simplified or approximated:
  - Result order: MongoDB promises no order for documents with equal sort keys, nor for a `find` or `aggregate` without `$sort`. The user search applies `$limit: 15` with no `$sort` (`server/controllers/userControllers.js:27-65`), and the message and room queries are read before they are sorted. The model keeps storage order in all these cases, so "the first matches" of `UserControllers.SearchUsers` are the first in storage order.
  - `new Date(...)` parsing in the client sort: timestamps are integers already.
  - String length: `.length` counts UTF-16 code units, and the model counts characters.
  - `toLowerCase` (client and MongoDB `$toLower`) is modelled for ASCII letters only.
  - Timestamps on other writes: Mongoose also bumps `updatedAt` on `room.save()` and the message's timestamps on `save`. The model uses `now` for all of them.
- Error paths not modelled:
  - An id that is not a valid ObjectId makes MongoDB throw a cast error, which the handlers report as a server error. Ids here are always well formed, so only the missing direct-chat target (a `toString` on `undefined`) is modelled as the 500 reply.
  - Database failures, and the 500 catch branches of send, list and search that they reach.
  - The success `message` strings of the direct-chat and group replies, such as "Room already exists", are not part of the reply bodies.
  - Mongoose validation reports all failing paths. `Models.CreateRoom`, `Models.CreateMessage` and `Models.CreateIdentity` report only the first one.
- Weaker contracts:
- AuthForms.RegistrationIssues: assumes zod runs the password-match refinement even when field checks fail, which is zod 3's behaviour for non-fatal string issues. It states the username, email and confirmation issues exactly, and the short-password issue in one direction only. Its password issues are exactly those of AuthForms.PasswordIssues.
- AuthForms.LoginIssues: states the short-password issue in one direction only. Its password issues are exactly those of AuthForms.PasswordIssues.
- RoomControllers.ValidateGroup: its full if-and-only-if with the four checks assumes distinct user ids in the user collection, which the store's invariant provides.

## Findings

| source | as written | input that shows it | evidently intended | confidence | as-written member | corrected member |
|---|---|---|---|---|---|---|
| client/src/components/GroupCreationModal.jsx:251-257 | the Cancel handler, like the close handler at lines 53-59, calls the undeclared `setSearchText` after hiding the dialog, so the call throws before `setSelectedUsers([])` and `setGroupName("")` | select two users, type "team", press Cancel, reopen the dialog: both users and "team" are still there and Create Group is enabled | closing clears the selection and the name | not executed | GroupCreation.ReopenKeepsSelection | GroupCreation.ReopenIntendedClears |
