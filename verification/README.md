# Temporary chat rooms, modelled in Dafny

The system is an ephemeral chat service. A visitor creates a room with an eight-character
identifier, shares its link, and whoever joins gets a generated guest name. The server keeps
everything in memory. The room store holds the rooms, users and messages, with two indexes: the
members of each room and the message list of each room. Over a WebSocket channel `/ws`, a
session coordinator handles `join_room`, `send_message` and socket close, and fans frames out to
the open connections of a room. A room disappears with its last member. In the browser there are
three parts: a socket wrapper that keeps a registry of listeners per frame type, the join dialog
that parses a pasted link or bare identifier, and the chat page that folds incoming frames into
its message list, member list and room.

Modules, one per concern:

- `Schema`: the records (`Room`, `User`, `Message`), their insert shapes, `Option`. Timestamps
  are milliseconds since the epoch.
- `Protocol`: the wire frames in both directions as datatypes, and the room-id format `[A-Z0-9]{8}`.
- `Seqs`: the JavaScript `Set` (a duplicate-free sequence in insertion order), `indexOf` and `splice`.
- `Text`: `trim` (ECMAScript whitespace), `includes`, `replace`, `slice`, `toUpperCase`.
- `Storage`: the store.
  - `Tables` is the five maps as one value. It has one transition function per mutating
    operation and one invariant: each room's count is its member-set size, member sets have no
    duplicates, records sit under their own ids, listed messages exist, and an empty member set
    belongs to an existing room.
  - `MemStorage` is the class whose methods update those maps in place.
- `Routes`: the identifier generators, `broadcastToRoom` and the coordinator.
  - `Session` is the store, the `connections` table with its iteration order, each socket's
    binding, and the open sockets. One step function per handler returns the next state and
    the frames sent, in order.
  - `ChatServer` is the class whose handler methods are proved to take exactly those steps.
- `JoinRoomModal`: `extractRoomId` and the decisions of `handleJoinRoom`.
- `Socket`: `ChatSocket`, its listener registry and its connect guard. The `Client` datatype
  is the specification; the `ChatSocket` class is the implementation.
- `ChatRoom`: the avatar colour and initials helpers, the page state, its frame listeners and
  `handleSendMessage`.

Randomness, identifiers and the clock are parameters:
- `Math.random` draws are passed as the integer indices the code computes from them;
- `randomUUID` values are passed as fresh ids;
- `new Date()` is passed as a timestamp.

The coordinator requires timestamps that do not decrease. Under that condition the proofs show
that every room's stored history is already in time order. So `getMessagesInRoom`, which sorts
stably by time, returns the messages in insertion order.

## Model

| member | source | states |
|---|---|---|
| Storage.MemStorage.CreateRoom | server/storage.ts:31-41 | Returns the room with the given id, the current time and count 0. The new tables are the old ones with that room installed. The store invariant and time order are kept. |
| Storage.CreatedRoomIsEmpty | server/storage.ts:31-41 | After `createRoom` the room is stored as given, with no members and no messages, even over an existing room of that id. Users, messages and every other room's members and history are unchanged. |
| Storage.CreateRoomKeepsValid | server/storage.ts:35-39 | A room created with count 0 and empty indexes keeps the invariant. In particular, count equals member-set size. |
| Storage.Tables.WithRoom | server/storage.ts:31-41 | Defines `createRoom`'s effect on the tables. The room goes under its own id, over any earlier room of that id, with an empty member set and an empty message list. Users, messages and other rooms' entries are unchanged. |
| Storage.MemStorage.GetRoom | server/storage.ts:43-45 | Finds a room exactly when its id is stored. The room found carries that id and a count equal to the size of its member set. |
| Storage.MemStorage.DeleteRoom | server/storage.ts:47-57 | Removes the room, every user its member set lists, every message its list names, and both index entries. It restores the full invariant, including for a room whose member set was just emptied. |
| Storage.DeletedRoomIsGone | server/storage.ts:47-57 | After `deleteRoom` the room and both index entries are absent. None of its members' records and none of its messages remain. Every other room reads the same members and history. |
| Storage.DeleteRoomKeepsValid | server/storage.ts:47-57 | From a coherent store whose only empty member set may be this room's, deletion yields a valid store and keeps time order. |
| Storage.DeleteRoomIdempotent | server/storage.ts:47-57 | Deleting an absent room changes nothing, so deleting twice equals deleting once. |
| Storage.DeleteAll | server/storage.ts:50-56 | The `forEach(delete)` loop leaves the map minus exactly the listed keys. |
| Storage.Tables.WithoutRoom | server/storage.ts:47-57 | Defines `deleteRoom`'s effect on the tables. It removes the room, both its index entries, every user its member set lists and every message its list names. |
| Storage.MemStorage.GetRoomUserCount | server/storage.ts:59-62 | Returns the size of the room's member set, 0 when there is none. For a stored room this equals its cached count. |
| Storage.MemStorage.AddUserToRoom | server/storage.ts:64-84 | Stores the user with its join time and adds it to the room's member set, creating the set if missing. An absent room is not an error. The invariant and time order are kept. |
| Storage.JoinedUserIsMember | server/storage.ts:64-84 | After `addUserToRoom` the user is stored. The room's member set gained exactly that id, growing by one unless it was present. The room exists afterwards exactly when it did before, and its count is the new set size. Other rooms are untouched. |
| Storage.AddUserKeepsValid | server/storage.ts:72-81 | Adding a member and refreshing the count keeps the invariant and time order. |
| Storage.Tables.WithUser | server/storage.ts:64-84 | Defines `addUserToRoom`'s effect on the tables. The user goes under its id, and its id is added to the room's member set, which is created if absent. An id already present keeps its place. An existing room's count becomes the new set size. An absent room stays absent. |
| Storage.MemStorage.RemoveUserFromRoom | server/storage.ts:86-105 | Deletes the user record. If the room has a member set, removes the id from it and refreshes the count. It deletes the room when the set is left empty. The invariant and time order are kept. |
| Storage.Tables.Detached | server/storage.ts:86-99 | Defines `removeUserFromRoom` up to its emptiness test. The user record is deleted, the first occurrence of the id leaves the room's member set, and an existing room's count becomes the set size. |
| Storage.Tables.WithoutUser | server/storage.ts:86-105 | Defines all of `removeUserFromRoom`. With no member set only the record is deleted. Otherwise the user is detached, and the room is then deleted as by `deleteRoom` when its set is left empty. |
| Storage.DetachKeepsCoherent | server/storage.ts:86-99 | Before the emptiness test the store is coherent. At most this room's set may be empty, and if it is not, the store is fully valid. |
| Storage.RemoveUserKeepsValid | server/storage.ts:86-105 | Removing a user, with the room deleted when it empties, keeps the invariant and time order. |
| Storage.LeftUserIsGone | server/storage.ts:86-91 | After `removeUserFromRoom` the user record is gone and the id is no longer a member of the room. |
| Storage.EmptiedRoomIsDeleted | server/storage.ts:89-104 | The room survives exactly when it existed and still has members after the removal, even if the user was never a member. A surviving room's count is its set size. A room with no member set is left alone. |
| Storage.JoinThenLeave | server/storage.ts:64-105 | Joining a room that has members, under an unused id, and then leaving it gives back exactly the original tables. |
| Storage.MemStorage.GetUsersInRoom | server/storage.ts:107-119 | Returns the members that have a user record, in join order, and nothing else. Returns none for an unknown room. |
| Storage.Present | server/storage.ts:107-119 | Defines the `forEach` that collects records. It gives the records of those ids that have one, in the order of the ids, skipping ids without a record, so it is never longer than the ids. |
| Storage.MemStorage.GetUser | server/storage.ts:121-123 | Finds a user exactly when the id is stored, and the user found carries that id. |
| Storage.MemStorage.AddMessage | server/storage.ts:125-139 | Stores the message under the fresh id with the current time and appends its id to the room's list, creating the list if missing. An absent room is not an error. The invariant is kept, and time order too when no stored message is later. |
| Storage.AddMessageKeepsValid | server/storage.ts:125-139 | A fresh message keeps the invariant. A message no earlier than every stored one keeps every list in time order. |
| Storage.Tables.WithMessage | server/storage.ts:125-139 | Defines `addMessage`'s effect on the tables. The message goes under its id, and its id is appended to its room's list, which is created if absent. Rooms and users are unchanged. |
| Storage.PostedMessageIsLast | server/storage.ts:132-136 | After `addMessage` the room's history is the old history with the new message at its end. Every other room's history is unchanged. |
| Storage.MemStorage.GetMessagesInRoom | server/storage.ts:141-153 | Returns the room's stored messages, stably sorted by time. It is empty for an unknown room, and equals the history in insertion order when the lists are time-ordered. |
| Storage.HistoryIsComplete | server/storage.ts:141-150 | Every id a room lists resolves to a stored message of that room, one message per id, in list order. |
| Storage.HistoryInTimeOrder | server/storage.ts:125-139 | With time-ordered lists, every room's history is non-decreasing in timestamp. |
| Storage.SortByTime | server/storage.ts:152 | The comparator sort yields a time-ordered sequence of the same length. |
| Storage.InsertByTime | server/storage.ts:152 | The insertion step of the stable sort. Into a time-ordered list it places the message after every message not later than it. The result is one longer, still time-ordered, and starts with the message or the list's old head. |
| Storage.SortByTimePermutes | server/storage.ts:152 | Sorting is a permutation: no message is lost or invented. |
| Storage.SortByTimeStable | server/storage.ts:152 | The messages sharing any one timestamp keep their relative order. This is the stability ECMAScript requires of `sort`. |
| Storage.SortByTimeKeepsOrdered | server/storage.ts:152 | A sequence already in time order is returned unchanged. |
| Routes.RoomIdCharsLayout | server/routes.ts:13 | The alphabet has 36 positions: `A` to `Z`, then `0` to `9`. |
| Routes.RoomIdCharsAreIdChars | server/routes.ts:13 | The alphabet holds exactly the characters of the class `[A-Z0-9]`. |
| Routes.GenerateRoomId | server/routes.ts:12-19 | Eight draws give a well-formed room id whose i-th character is the alphabet entry at the i-th draw. |
| Routes.RoomIdCharIndex | server/routes.ts:16 | Every id character has a position in the alphabet. This is the inverse of `charAt`. |
| Routes.EveryRoomIdCanBeDrawn | server/routes.ts:12-19 | Every well-formed room id is generated by some eight draws, so the generator reaches the whole format. |
| Routes.Decimal | server/routes.ts:24 | A number renders as one or more decimal digits, with no leading zero from 10 on. |
| Routes.DecimalRoundTrip | server/routes.ts:24 | Reading the rendered digits back gives the number. |
| Routes.FourDigits | server/routes.ts:23-24 | Numbers from 1000 to 9999 render as exactly four digits. |
| Routes.GenerateGuestName | server/routes.ts:21-25 | A guest name is "Guest_" followed by four digits. The first digit is not 0, and their value is the draw plus 1000, so it lies in 1000–9999. |
| Routes.GuestNamesDistinct | server/routes.ts:21-25 | Distinct draws give distinct guest names. |
| Routes.Fanout | server/routes.ts:244-252 | A broadcast sends at most one frame per connection. |
| Routes.FanoutRecipients | server/routes.ts:244-252 | Every frame sent goes to an open connection of the room that is not the excluded user. Every such connection receives it. |
| Routes.FanoutSkips | server/routes.ts:244-252 | A socket whose only connection in the room is the excluded one receives nothing. |
| Routes.ChatServer.Broadcast | server/routes.ts:244-252 | The `forEach` loop sends exactly what the broadcast specification lists, in table order, and only the given frame. |
| Routes.ChatServer.Connect | server/routes.ts:87-88 | A new socket becomes open and unbound, and nothing else changes. |
| Routes.ChatServer.CreateRoomRoute | server/routes.ts:28-37 | `POST /api/rooms` creates a room with a well-formed generated id and count 0 in the store. The coordinator invariant is kept. |
| Routes.FreshMessageNotInHistory | server/routes.ts:134-154 | A message whose id is not yet stored is in no room's history. So the joiner's own notice cannot be in the history it is sent. |
| Routes.Admitted | server/routes.ts:112-125 | The state after `addUserToRoom` and `connections.set`. The joiner is stored as by `addUserToRoom`, the socket is bound to the new connection, and the connection joins the table, at the end of its iteration order when its key is new. |
| Routes.Welcome | server/routes.ts:127-146 | The three frames sent to the joiner, read from the tables once the joiner is stored. They are `joined_room` with the user and the room as now stored (none if absent), `messages_history` with the time-sorted history, and `users_list` with the members that have a record, in join order. |
| Routes.JoinAnnounced | server/routes.ts:148-161 | The join notice, "<name> joined the room" by the system author in the joiner's room, is stored. Then `user_joined` with the user, the notice and the room's member count after the join is broadcast to the room, excluding the joiner. |
| Routes.JoinStep | server/routes.ts:95-170 | The `join_room` case. An unknown room gets one "Room not found" error and changes nothing. Otherwise a user with a generated guest name is admitted, welcomed, then announced, and the frames are sent in that order. |
| Routes.SendStep | server/routes.ts:172-204 | The `send_message` case. An unbound socket gets one "Not connected to a room" error and changes nothing. Otherwise the content is stored as a message under the bound user, name and room, and broadcast as `new_message` to the whole room, the sender included. |
| Routes.MessageStep | server/routes.ts:90-213 | Dispatches one inbound frame. Text that does not parse, or parses to `null`, gets "Invalid message format". `join_room` and `send_message` take their steps. Any other type changes nothing and sends nothing. |
| Routes.Departed | server/routes.ts:215-220 | The state after `removeUserFromRoom` and `connections.delete` for the user bound to a closed socket. The socket is no longer open, the user leaves the store as by `removeUserFromRoom`, and the connection leaves the table. |
| Routes.LeaveAnnounced | server/routes.ts:222-235 | The leave notice, "<name> left the room" by the system author in the leaver's room, is stored. Then `user_left` with the user id, the notice and the member count after the departure is broadcast to the whole room, with no exclusion. |
| Routes.CloseStep | server/routes.ts:215-241 | The close handler. An unbound socket only stops being open. A bound one departs, and then its leave is announced. |
| Routes.BindKeepsValid | server/routes.ts:119-125 | Binding an open socket to a connection under a new user id keeps the coordinator invariant. |
| Routes.UnbindKeepsValid | server/routes.ts:215-220 | Closing a bound socket and deleting its user's connection keeps the coordinator invariant. |
| Routes.PostKeepsValid | server/routes.ts:149-154 | Storing a notice or chat message under a fresh id keeps the invariant. It keeps time order when the clock has not gone back. |
| Routes.AdmitKeepsValid | server/routes.ts:109-125 | Storing and binding the joiner keeps the invariant and time order, and stores no message. |
| Routes.DepartKeepsValid | server/routes.ts:216-220 | A departure keeps the invariant and time order, and only ever drops stored messages. |
| Routes.JoinKeepsValid | server/routes.ts:95-161 | Every `join_room` step, refused or successful, keeps the coordinator invariant. |
| Routes.JoinKeepsOrder | server/routes.ts:95-161 | A `join_room` step keeps every room's history in time order and stamped no later than now. |
| Routes.WelcomeFrames | server/routes.ts:127-146 | The joiner gets three frames, in order. `joined_room` carries the joiner and the room with a count that includes it. `messages_history` carries the room's history. `users_list` includes the joiner. |
| Routes.JoinFrames | server/routes.ts:109-161 | A successful join binds the socket and records the connection. The first three frames go to the joiner, and the history sent omits the joiner's notice. The notice then ends the room's stored history. All later frames are `user_joined` with the notice and the new count. They reach every open connection already in the room and no other socket, and none reaches the joiner's socket. |
| Routes.JoinNoticeRecipients | server/routes.ts:148-161 | The join notice is broadcast only as `user_joined` with the post-join count. Every open connection already in the room receives it, and every recipient is such a connection. A socket bound only now does not receive it. |
| Routes.RefusedFramesChangeNothing | server/routes.ts:100-107 | `join_room` for an unknown room, and `send_message` on a socket that never joined, each get one error frame and change nothing. Closing an unbound socket sends nothing. |
| Routes.SendKeepsValid | server/routes.ts:172-195 | Every `send_message` step keeps the invariant, and keeps time order under a clock that does not go back. |
| Routes.SentMessageReachesRoom | server/routes.ts:181-195 | A message from a bound socket is stored at the end of its room's history, under the bound user, name and room. Every open connection of that room receives it, the sender included. Every recipient is such a connection, and no other frame is sent. |
| Routes.CloseKeepsValid | server/routes.ts:215-241 | Every close step keeps the invariant, and keeps time order under a clock that does not go back. |
| Routes.CloseFrames | server/routes.ts:215-241 | Closing a bound socket removes its user from the store, the member set and the table. The room's history is what remained after the departure with the leave notice appended. While the room survives, that is its whole earlier history followed by the notice. Every frame sent is `user_left` with the post-removal count. Every other connection of the room whose socket is still open receives it, every recipient is such a connection, and none goes to the closed socket. |
| Routes.LeaveNoticeOutlivesRoom | server/routes.ts:219-228 | When the last member leaves, the room is deleted. The leave notice is then stored under the deleted room's id as the only entry of a fresh list. |
| Routes.MalformedFramesChangeNothing | server/routes.ts:90-212 | A frame that does not parse gets exactly one "Invalid message format" error. A frame of unknown type gets no reply. Neither changes any state. |
| Routes.ChatServer.HandleJoin | server/routes.ts:95-170 | The `join_room` handler takes exactly the join step: same new state, same frames in the same order. The invariant is kept. |
| Routes.ChatServer.Admit | server/routes.ts:109-125 | `addUserToRoom` plus binding returns the stored user and reaches the admitted state. |
| Routes.ChatServer.AnnounceJoin | server/routes.ts:148-161 | Stores the join notice and broadcasts `user_joined`, excluding the joiner, as the step specifies. |
| Routes.ChatServer.HandleSend | server/routes.ts:172-204 | The `send_message` handler takes exactly the send step. |
| Routes.ChatServer.HandleMessage | server/routes.ts:90-213 | The message handler dispatches on the parsed frame and takes exactly the specified step. The clock does not go back. |
| Routes.ChatServer.HandleClose | server/routes.ts:215-241 | The close handler takes exactly the close step. |
| Routes.ChatServer.Depart | server/routes.ts:219-220 | `removeUserFromRoom` then `connections.delete` reach the departed state. |
| Routes.ChatServer.AnnounceLeave | server/routes.ts:222-235 | Stores the leave notice and broadcasts `user_left` to the whole room, as the step specifies. |
| JoinRoomModal.FirstRoomLink | client/src/components/join-room-modal.tsx:27 | Returns the leftmost position where "/room/" is followed by eight `[A-Z0-9]` characters, or -1 when there is none. |
| JoinRoomModal.FirstRoomLinkIs | client/src/components/join-room-modal.tsx:27 | A match with no match before it is the one the search finds. |
| JoinRoomModal.ExtractRoomId | client/src/components/join-room-modal.tsx:22-37 | The result is either empty or a well-formed room id. |
| JoinRoomModal.RoomLinkAt | client/src/components/join-room-modal.tsx:27 | The pattern `\/room\/([A-Z0-9]{8})` matches at a position: "/room/" occurs there and is followed by eight characters of `[A-Z0-9]`. |
| JoinRoomModal.ExtractFromTrimmed | client/src/components/join-room-modal.tsx:26-36 | On trimmed input, the result is empty or a well-formed room id. Input containing "/room/" gives the id at the first match or the empty string. Otherwise input that is itself an id gives itself, and anything else gives the empty string. |
| JoinRoomModal.ExtractFromLink | client/src/components/join-room-modal.tsx:26-29 | When the trimmed input contains "/room/", the result is non-empty exactly when some "/room/" is followed by eight id characters. It is then the eight after the leftmost such occurrence. |
| JoinRoomModal.ExtractBareId | client/src/components/join-room-modal.tsx:32-36 | Without "/room/", the result is non-empty exactly when the trimmed input is a room id, and is then that input. |
| JoinRoomModal.ExtractIgnoresPadding | client/src/components/join-room-modal.tsx:23 | Whitespace at either end of the input does not change the result. |
| JoinRoomModal.ExtractKeepsRoomId | client/src/components/join-room-modal.tsx:32-34 | A room id extracts to itself. |
| JoinRoomModal.ExtractIdempotent | client/src/components/join-room-modal.tsx:22-37 | Extracting from a result gives that result again. |
| JoinRoomModal.ExtractFromRoomPath | client/src/components/join-room-modal.tsx:26-29 | The in-app path "/room/" plus an id extracts to the id. |
| JoinRoomModal.ExtractLinkExample | client/src/components/join-room-modal.tsx:26-29 | "https://host/room/AB12CD34" extracts to "AB12CD34". |
| JoinRoomModal.ExtractRejectExample | client/src/components/join-room-modal.tsx:22-37 | "not-a-room-link" extracts to the empty string. |
| JoinRoomModal.StartJoin | client/src/components/join-room-modal.tsx:42-47 | An input that extracts to nothing ends with the validation message and no lookup. Otherwise the lookup is for the extracted, well-formed id. |
| JoinRoomModal.FinishJoin | client/src/components/join-room-modal.tsx:51-77 | The dialog navigates to "/room/" plus the id exactly on a 2xx response. A 404 gives "Room not found or may have been deleted". Any other status gives "Failed to join room. Please try again." A network failure gives its own message. |
| Text.Trim | client/src/components/join-room-modal.tsx:23 | The result has no whitespace at either end and is no longer than the input. |
| Text.TrimIgnoresPadding | client/src/pages/chat-room.tsx:149 | Whitespace added at either end does not change what `trim` gives. |
| Text.Includes | client/src/components/join-room-modal.tsx:26 | True exactly when the pattern occurs at some position. |
| Text.TrimStart | client/src/components/join-room-modal.tsx:23 | Removes the leading whitespace. The result is a suffix of the input, everything removed is whitespace, and the result does not start with whitespace. |
| Text.TrimEnd | client/src/components/join-room-modal.tsx:23 | Removes the trailing whitespace. The result is a prefix of the input, everything removed is whitespace, and the result does not end with whitespace. |
| Text.ToUpper | client/src/pages/chat-room.tsx:44 | `toUpperCase` on ASCII letters. It keeps the length and maps each character on its own, `a`-`z` to `A`-`Z`. |
| Text.ReplaceFirst | client/src/pages/chat-room.tsx:42 | `replace` with a string pattern. Only the first occurrence is replaced, and a string without the pattern comes back unchanged. |
| Text.Take | client/src/pages/chat-room.tsx:42-44 | `slice(0, n)`: a prefix of the input, of length n or the whole input when shorter. |
| Seqs.IndexOf | client/src/lib/socket.ts:72 | `indexOf` gives -1 exactly when the element is absent. Otherwise it gives a position holding the element with no earlier occurrence. |
| Seqs.RemoveFirst | client/src/lib/socket.ts:70-76 | `splice(indexOf(x), 1)` guarded by `index > -1`. Without the element the sequence is unchanged. With it, the result is one shorter, missing only the first occurrence. `Set.prototype.delete` at server/storage.ts:91 uses it too. |
| Seqs.SetAdd | server/storage.ts:72-74 | `Set.prototype.add`. A new element goes to the end of the iteration order, and an element already present stays where it is. |
| Socket.OnAppends | client/src/lib/socket.ts:63-68 | `on` appends the callback to the end of its event's list, creating the list if absent. Every other event's list and the connection state are unchanged. |
| Socket.OffRemovesFirst | client/src/lib/socket.ts:70-76 | `off` removes only the first registration of the callback and keeps the rest in order. It changes nothing when the callback or the event is not registered. |
| Socket.OffUndoesOn | client/src/lib/socket.ts:63-76 | Registering a new callback and then removing it restores every event's list. |
| Socket.OffRemovesOneRegistration | client/src/lib/socket.ts:63-76 | Of two registrations of one callback, one `off` removes one, and the other still fires. |
| Socket.DisconnectSilences | client/src/lib/socket.ts:100-106 | After `disconnect` no event has a listener and the client is not connected. |
| Socket.ConnectIsGuarded | client/src/lib/socket.ts:13-56 | `connect` resolves unchanged when open. It rejects with "Already connecting" exactly while a connect is in flight. Open, error and close each lift that guard. |
| Socket.Client.Connect | client/src/lib/socket.ts:13-30 | Defines `connect`. An open socket resolves at once, and a connect in flight rejects with "Already connecting". Neither changes the state. Otherwise the guard is raised and a new connecting socket replaces the old one, pending. |
| Socket.Client.Opened | client/src/lib/socket.ts:32-35 | Defines `onopen`. The guard drops and the held socket is open. |
| Socket.Client.Dropped | client/src/lib/socket.ts:37-54 | Defines `onerror` and `onclose`. The guard drops and the held socket is closed. The `disconnected` dispatch is separate. |
| Socket.Client.On | client/src/lib/socket.ts:63-68 | Defines `on`. The callback is appended to its event's list, which is created if absent. |
| Socket.Client.Off | client/src/lib/socket.ts:70-76 | Defines `off`. The first registration of the callback under the event is removed, and nothing else changes. |
| Socket.Client.Disconnected | client/src/lib/socket.ts:100-106 | Defines `disconnect`. The socket reference is dropped and the registry emptied, and `isConnecting` is untouched. |
| Socket.ChatSocket.Connect | client/src/lib/socket.ts:13-30 | Settles as the specification's `connect` does and reaches its state. |
| Socket.ChatSocket.Opened | client/src/lib/socket.ts:32-35 | `onopen` lifts the guard and opens the socket still held. |
| Socket.ChatSocket.Errored | client/src/lib/socket.ts:37-40 | `onerror` lifts the guard and marks the socket done. |
| Socket.ChatSocket.ClosedByPeer | client/src/lib/socket.ts:51-54 | `onclose` lifts the guard and invokes exactly the `disconnected` listeners, in order. |
| Socket.ChatSocket.HandleMessage | client/src/lib/socket.ts:58-61 | Invokes exactly the listeners registered under the type, in registration order and once per registration. It invokes none for an unregistered type. |
| Socket.ChatSocket.On | client/src/lib/socket.ts:63-68 | The registry becomes what the specification's `on` gives. |
| Socket.ChatSocket.Off | client/src/lib/socket.ts:70-76 | `indexOf` then `splice` give the specification's `off`. |
| Socket.ChatSocket.Send | client/src/lib/socket.ts:78-84 | A frame goes out, unchanged, exactly when the socket is open. |
| Socket.ChatSocket.JoinRoom | client/src/lib/socket.ts:86-91 | Sends a `join_room` frame for the id when open, otherwise nothing. |
| Socket.ChatSocket.SendMessage | client/src/lib/socket.ts:93-98 | Sends a `send_message` frame with the content when open, otherwise nothing. |
| Socket.ChatSocket.Disconnect | client/src/lib/socket.ts:100-106 | Requests a close exactly when a socket is held, drops it, and clears the registry. |
| ChatRoom.AvatarColor | client/src/pages/chat-room.tsx:33-36 | The colour is always one of the eight avatar classes. |
| ChatRoom.Utf16Length | client/src/pages/chat-room.tsx:34 | The UTF-16 encoding is at least as long as the string. Below U+10000 each character is its own single code unit. |
| ChatRoom.SliceAgreesOnBmp | client/src/pages/chat-room.tsx:42-44 | Taking the first characters agrees with `slice`, which takes code units, whenever the characters taken lie below U+10000. |
| ChatRoom.CodeUnitSumPermutes | client/src/pages/chat-room.tsx:34 | Two ids holding the same characters with the same multiplicities, in any order, have the same code-unit sum. |
| ChatRoom.AvatarColorIgnoresOrder | client/src/pages/chat-room.tsx:34-35 | Any two ids that are rearrangements of each other get the same colour. |
| ChatRoom.Initials | client/src/pages/chat-room.tsx:38-45 | Defines `getUserInitials`. "You" gives "You" and "System" gives "S". A name starting "Guest_" has that prefix replaced by "G" and is cut to two characters. Any other name gives its first two characters, upper-cased. |
| ChatRoom.InitialsShape | client/src/pages/chat-room.tsx:38-45 | Only "You" maps to "You", and "System" maps to "S". Every other label has at most two characters and is empty only for the empty name. Any name that is neither a guest name nor a special name gives its first two characters, upper-cased. |
| ChatRoom.GuestInitials | client/src/pages/chat-room.tsx:41-43 | A guest name maps to "G" plus the first character after the prefix, if there is one. |
| ChatRoom.ServerGuestInitials | client/src/pages/chat-room.tsx:41-43 | Every generated guest name maps to "G" and a digit from 1 to 9. |
| ChatRoom.WithoutUser | client/src/pages/chat-room.tsx:104 | The filter keeps exactly the members not under the id. |
| ChatRoom.WithoutUserUndoesAppend | client/src/pages/chat-room.tsx:94-104 | Filtering out a member who was just appended gives back the list before the append. |
| ChatRoom.UserLeftDropsMember | client/src/pages/chat-room.tsx:103-107 | `user_left` drops every member under the id and appends exactly its message. It recounts a room the page has and never invents one. |
| ChatRoom.JoinThenLeaveRestoresMembers | client/src/pages/chat-room.tsx:93-107 | A new member who joins and leaves leaves the member list as it was. Both notices are appended. |
| ChatRoom.CountsNeedRoom | client/src/pages/chat-room.tsx:96-106 | Without a room, no frame but `joined_room` gives the page one. |
| ChatRoom.Recount | client/src/pages/chat-room.tsx:96 | `prev ? { ...prev, userCount } : null`. A room the page has gets the new count, and a missing room stays missing. |
| ChatRoom.Received | client/src/pages/chat-room.tsx:71-112 | Defines the page update for each frame type, as its listener does. `joined_room` sets the user and room and ends connecting. `messages_history` and `users_list` replace their lists. `new_message` appends. `user_joined` appends the user and notice and recounts. `user_left` filters the user out, appends the notice and recounts. `error` sets the message and ends connecting. |
| ChatRoom.Outgoing | client/src/pages/chat-room.tsx:148-151 | Sends nothing when not connected or when the trimmed input is empty. Otherwise sends the non-empty trimmed input. |
| ChatRoom.OutgoingIgnoresPadding | client/src/pages/chat-room.tsx:149 | Padding the input changes nothing, and what is sent has no whitespace at either end. |
| ChatRoom.ChatRoomPage.OnFrame | client/src/pages/chat-room.tsx:71-112 | Each listener updates the page as the frame specification says. The history and member list are replaced; a message and a member are appended; a leaving member is filtered out. |
| ChatRoom.ChatRoomPage.OnDisconnected | client/src/pages/chat-room.tsx:114-121 | The `disconnected` listener marks the page not connected and changes nothing else. |
| ChatRoom.ChatRoomPage.HandleSendMessage | client/src/pages/chat-room.tsx:148-154 | Hands over the content that `Outgoing` allows. The input is cleared exactly when something is sent, and nothing else changes. |

## Left out

- Transport and serialisation are not modelled.
  - Not covered: the HTTP server, the WebSocket server, `ws.send` and `JSON.parse`/`JSON.stringify`.
  - Frames are datatypes. Text that fails to parse, or parses to `null`, is the `Unparseable` variant and gets the "Invalid message format" error. Any other parsed value whose `type` is neither `join_room` nor `send_message`, including a value with no `type` at all, is `OtherType` and gets no reply.
  - A `join_room` or `send_message` frame whose `roomId` or `content` field is missing is not modelled.
- `readyState` is the set of open sockets. A socket leaves it when its close event runs.
- Concurrency is not modelled: the interleavings possible at `await` points and between sockets.
  - Each handler runs as one atomic step.
  - One clock value serves all the store calls of a handler.
- The `catch` branches that send "Failed to join room" and "Failed to send message", and the one that logs a failed disconnect, are not modelled. In the model the in-memory store calls they guard cannot fail.
- The GET routes (`/api/rooms/:id` and its sibling) are not modelled. They are thin wrappers over `getRoom` and `getRoomUserCount`.
- `Math.random` floating point is not modelled; the model starts from the integer index the code computes. `randomUUID` uniqueness is a precondition (fresh ids). ISO timestamp strings are not modelled; timestamps are milliseconds.
- The `WebSocket` construction and URL in `connect`, and promise settlement beyond resolved, rejected or pending, are not modelled.
- Events from a socket that `connect` has since replaced, and listeners that register or unregister during a dispatch, are not modelled.
- `handleJoinRoom` only after the guard: its `setIsJoining` flags, toasts and navigation side effects are not modelled, only the outcome `FinishJoin` computes.
- The chat page's toasts, scrolling, focus, clipboard and `toLocaleTimeString` are not modelled. The mount flow (`connectAndJoin`, the listener registrations, the cleanup `disconnect`) is also not modelled; its parts are modelled separately.
- Text.ToUpper: only ASCII letters are upper-cased. The full Unicode case mapping of `toUpperCase` is out of scope. That mapping can change a string's length even below U+10000: "ß" becomes "SS", so the source labels "ßa" "SSA" where the model gives "ßA".
- Text.Take: it takes characters, while `slice(0, n)` takes UTF-16 code units. The two agree when the characters taken lie below U+10000 (`ChatRoom.SliceAgreesOnBmp`). The consequences for the initials are on the `ChatRoom.Initials` line.
- ChatRoom.Initials: `slice(0, 2)` counts UTF-16 code units, while the model takes characters. The two agree when the characters taken lie below U+10000 (`ChatRoom.SliceAgreesOnBmp`). They differ in two cases.
  - When the first character lies above U+10000, its surrogate pair fills both code units. The source keeps that one character, while the model keeps two: "😀b" gives "😀" in the source and "😀B" in the model.
  - When only the second character lies above U+10000, the source keeps its high surrogate alone, which a Dafny string cannot hold: "a😀" gives "A" plus a lone high surrogate in the source and "A😀" in the model.
  Upper-casing differs as well, as the `Text.ToUpper` line says. Every label the page draws is for a message author or a member. That is a server-generated ASCII guest name, "System" or "You", so those labels are unaffected (`ChatRoom.ServerGuestInitials`).
- InitialsShape: its length and letter claims hold of the source only when the first two characters lie below U+10000 and are unchanged in length by the full case mapping. For "😀b", and for "ßa" (which the source labels "SSA", three code units), they do not hold. See the `ChatRoom.Initials` and `Text.ToUpper` lines.
- GuestInitials: the source keeps one code unit after "G" and the model one character. They agree when that character lies below U+10000, for the reason given on the `ChatRoom.Initials` line.
- The landing page and the zod schemas are not modelled. The record shapes are the datatypes in `Schema`.
- Behaviours of the code that a reader may not expect, and that the model keeps:
  - `createRoom` overwrites a room with the same id;
  - `addUserToRoom` and `addMessage` accept a room that does not exist;
  - a second `join_room` on a bound socket creates a second user and rebinds the socket, and the first user stays in the table and the store until the server stops;
  - a well-formed frame of unknown type gets no reply;
  - the leave notice of a room's last member is stored after the room is deleted, under a message list of its own (`Routes.LeaveNoticeOutlivesRoom`).
