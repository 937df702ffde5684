/**
 * The server side of the chat: the identifier generators, the `/ws` session coordinator
 * (`join_room`, `send_message`, malformed frames and close) and `broadcastToRoom`, over the
 * room store. Each handler runs as one atomic step and yields the frames it sends, in order.
 */
module Routes {
  import opened Schema
  import opened Seqs
  import opened Protocol
  import opened Storage

  // ---------------------------------------------------------------------------------------
  // Identifier generators

  /** The alphabet `generateRoomId` draws from. */
  const RoomIdChars: string := "ABCDEFGHIJKLMNOPQRSTUVWXYZ0123456789"

  /** The alphabet lists `A` to `Z`, then `0` to `9`, one position per character. */
  lemma RoomIdCharsLayout()
    ensures |RoomIdChars| == 36
    ensures forall i :: 0 <= i < 26 ==> RoomIdChars[i] == ('A' as int + i) as char
    ensures forall i :: 26 <= i < 36 ==> RoomIdChars[i] == ('0' as int + i - 26) as char
  {
    var span := seq(36, i requires 0 <= i < 36 => if i < 26 then ('A' as int + i) as char else ('0' as int + i - 26) as char);
    assert RoomIdChars == span;
  }

  /** The alphabet is exactly the class `[A-Z0-9]`. */
  lemma RoomIdCharsAreIdChars()
    ensures forall c :: c in RoomIdChars <==> IsRoomIdChar(c)
  {
    RoomIdCharsLayout();
    forall c | IsRoomIdChar(c) ensures c in RoomIdChars {
      assert 'A' <= c <= 'Z' || '0' <= c <= '9';
      if 'A' <= c <= 'Z' {
        assert RoomIdChars[c as int - 'A' as int] == c;
      } else {
        assert RoomIdChars[26 + c as int - '0' as int] == c;
      }
    }
  }

  /**
   * `generateRoomId`: eight characters, the i-th being the alphabet's character at the i-th
   * draw of `Math.floor(Math.random() * chars.length)`.
   */
  method GenerateRoomId(draws: seq<nat>) returns (id: string)
    requires |draws| == 8 && forall i :: 0 <= i < 8 ==> draws[i] < |RoomIdChars|
    ensures IsRoomId(id)
    ensures forall i :: 0 <= i < 8 ==> id[i] == RoomIdChars[draws[i]]
  {
    RoomIdCharsAreIdChars();
    id := "";
    for i := 0 to 8
      invariant |id| == i
      invariant forall j :: 0 <= j < i ==> id[j] == RoomIdChars[draws[j]]
    {
      id := id + [RoomIdChars[draws[i]]];
    }
    assert forall j :: 0 <= j < 8 ==> id[j] in RoomIdChars;
  }

  /** The position of an id character in the alphabet. */
  function RoomIdCharIndex(c: char): (i: nat)
    requires IsRoomIdChar(c)
    ensures i < |RoomIdChars| && RoomIdChars[i] == c
  {
    RoomIdCharsLayout();
    if 'A' <= c <= 'Z' then c as int - 'A' as int else 26 + c as int - '0' as int
  }

  /** Every well-formed room id is what `generateRoomId` yields for some draws. */
  lemma EveryRoomIdCanBeDrawn(s: string)
    requires IsRoomId(s)
    ensures exists draws: seq<nat> :: |draws| == 8
              && (forall i :: 0 <= i < 8 ==> draws[i] < |RoomIdChars|)
              && (forall i :: 0 <= i < 8 ==> s[i] == RoomIdChars[draws[i]])
  {
    var draws := seq(8, i requires 0 <= i < 8 => RoomIdCharIndex(s[i]));
    assert |draws| == 8;
    assert forall i :: 0 <= i < 8 ==> draws[i] < |RoomIdChars|;
    assert forall i :: 0 <= i < 8 ==> s[i] == RoomIdChars[draws[i]];
  }

  function DigitChar(d: nat): char
    requires d < 10
  {
    ('0' as int + d) as char
  }

  /** A non-negative integer's decimal text, as a template literal renders a JavaScript number. */
  function Decimal(n: nat): (s: string)
    ensures |s| >= 1
    ensures forall i :: 0 <= i < |s| ==> '0' <= s[i] <= '9'
    ensures n >= 10 ==> s[0] != '0'
  {
    if n < 10 then [DigitChar(n)] else Decimal(n / 10) + [DigitChar(n % 10)]
  }

  /** The value of a string of decimal digits. */
  function DecimalValue(s: string): nat
    requires forall i :: 0 <= i < |s| ==> '0' <= s[i] <= '9'
  {
    if s == [] then 0 else DecimalValue(s[..|s| - 1]) * 10 + (s[|s| - 1] as int - '0' as int)
  }

  lemma {:induction false} DecimalRoundTrip(n: nat)
    ensures DecimalValue(Decimal(n)) == n
  {
    if n >= 10 {
      DecimalRoundTrip(n / 10);
      var s := Decimal(n);
      assert s[..|s| - 1] == Decimal(n / 10);
    }
  }

  lemma FourDigits(n: nat)
    requires 1000 <= n <= 9999
    ensures |Decimal(n)| == 4
  {
    assert (n / 10) / 10 == n / 100 && (n / 100) / 10 == n / 1000;
    assert |Decimal(n / 1000)| == 1;
    assert |Decimal(n / 100)| == 2;
    assert |Decimal(n / 10)| == 3;
  }

  const GuestPrefix: string := "Guest_"

  /**
   * `generateGuestName`: "Guest_" followed by the four decimal digits of
   * `Math.floor(Math.random() * 9000) + 1000`, given that floor as `draw`.
   */
  function GenerateGuestName(draw: nat): (name: string)
    requires draw < 9000
    ensures |name| == 10 && name[..6] == GuestPrefix
    ensures forall i :: 6 <= i < 10 ==> '0' <= name[i] <= '9'
    ensures name[6] != '0'
    ensures DecimalValue(name[6..]) == draw + 1000
  {
    DecimalRoundTrip(draw + 1000);
    FourDigits(draw + 1000);
    var name := GuestPrefix + Decimal(draw + 1000);
    assert name[6..] == Decimal(draw + 1000);
    name
  }

  /** Distinct draws give distinct guest names. */
  lemma GuestNamesDistinct(a: nat, b: nat)
    requires a < 9000 && b < 9000 && a != b
    ensures GenerateGuestName(a) != GenerateGuestName(b)
  {
  }

  // ---------------------------------------------------------------------------------------
  // Connections and broadcast

  /** A WebSocket, by identity. */
  type SocketId = nat

  /** `ClientConnection`: a socket bound to the user it joined as. */
  datatype Connection = Connection(socket: SocketId, userId: string, roomId: string, userName: string)

  /** One `ws.send`: the frame and the socket it goes to. */
  datatype Delivery = Delivery(to: SocketId, frame: ServerFrame)

  /** The test `broadcastToRoom` applies to each connection; `exclude` is `excludeUserId` or absent. */
  predicate Receives(c: Connection, open: set<SocketId>, roomId: string, exclude: Option<string>)
  {
    c.roomId == roomId && (exclude.None? || c.userId != exclude.value) && c.socket in open
  }

  /** What `broadcastToRoom` sends, visiting the connection table in its iteration order. */
  function Fanout(order: seq<string>, conns: map<string, Connection>, open: set<SocketId>, roomId: string,
                  exclude: Option<string>, frame: ServerFrame): (r: seq<Delivery>)
    ensures |r| <= |order|
  {
    if order == [] then []
    else
      var k := order[|order| - 1];
      Fanout(order[..|order| - 1], conns, open, roomId, exclude, frame)
        + if k in conns && Receives(conns[k], open, roomId, exclude) then [Delivery(conns[k].socket, frame)] else []
  }

  /** Exactly the open connections of the room, bar the excluded user, receive the frame; nothing else is sent. */
  lemma {:induction false} FanoutRecipients(order: seq<string>, conns: map<string, Connection>, open: set<SocketId>,
                                            roomId: string, exclude: Option<string>, frame: ServerFrame)
    ensures forall d :: d in Fanout(order, conns, open, roomId, exclude, frame) ==>
              d.frame == frame && exists k :: k in order && k in conns && Receives(conns[k], open, roomId, exclude)
                                               && d.to == conns[k].socket
    ensures forall k :: k in order && k in conns && Receives(conns[k], open, roomId, exclude) ==>
              Delivery(conns[k].socket, frame) in Fanout(order, conns, open, roomId, exclude, frame)
  {
    if order != [] {
      var init := order[..|order| - 1];
      FanoutRecipients(init, conns, open, roomId, exclude, frame);
      assert order == init + [order[|order| - 1]];
    }
  }

  /** A socket with no connection of the room other than the excluded one's receives nothing. */
  lemma FanoutSkips(order: seq<string>, conns: map<string, Connection>, open: set<SocketId>,
                    roomId: string, exclude: Option<string>, frame: ServerFrame, socket: SocketId)
    requires forall k :: k in order && k in conns && conns[k].socket == socket && conns[k].roomId == roomId
               ==> exclude == Some(k) && conns[k].userId == k
    ensures forall d :: d in Fanout(order, conns, open, roomId, exclude, frame) ==> d.to != socket
  {
    FanoutRecipients(order, conns, open, roomId, exclude, frame);
  }

  // ---------------------------------------------------------------------------------------
  // The coordinator's state and its steps

  // The coordinator's invariant, one predicate per concern.

  /** The iteration order lists every key of the table once. */
  ghost predicate OrderLists(order: seq<string>, connections: map<string, Connection>)
  {
    NoDup(order) && forall k :: k in order <==> k in connections
  }

  /** Each connection sits under its user id and belongs to a socket that bound it. */
  ghost predicate ConnectionsBound(connections: map<string, Connection>, bindings: map<SocketId, Connection>)
  {
    forall k :: k in connections ==> connections[k].userId == k && connections[k].socket in bindings
  }

  ghost predicate BindingsKeyed(bindings: map<SocketId, Connection>)
  {
    forall s :: s in bindings ==> bindings[s].socket == s
  }

  /** An open bound socket's current binding is in the table. */
  ghost predicate OpenBindingsListed(bindings: map<SocketId, Connection>, open: set<SocketId>,
                                     connections: map<string, Connection>)
  {
    forall s :: s in bindings && s in open ==>
      bindings[s].userId in connections && connections[bindings[s].userId] == bindings[s]
  }

  /**
   * The coordinator's whole state: the store's tables, the `connections` map (its entries and
   * its insertion order), each socket's `clientConnection` once bound, and the open sockets.
   */
  datatype Session = Session(
    tables: Tables,
    connections: map<string, Connection>,
    order: seq<string>,
    bindings: map<SocketId, Connection>,
    open: set<SocketId>)
  {
    /**
     * The store is consistent; the order lists each connection once; each connection sits under
     * its user id and belongs to a socket that bound it; and an open bound socket's current
     * binding is in the table.
     */
    ghost predicate Valid()
    {
      && tables.Valid()
      && OrderLists(order, connections)
      && ConnectionsBound(connections, bindings)
      && BindingsKeyed(bindings)
      && OpenBindingsListed(bindings, open, connections)
    }

    /** `broadcastToRoom(roomId, frame, exclude)` in this state. */
    function Broadcast(roomId: string, exclude: Option<string>, frame: ServerFrame): seq<Delivery>
    {
      Fanout(order, connections, open, roomId, exclude, frame)
    }

    /** `connections.set(userId, c)`: a new key goes to the end of the iteration order. */
    function WithConnection(c: Connection): Session
    {
      this.(connections := connections[c.userId := c],
            order := if c.userId in connections then order else order + [c.userId])
    }

    /** `connections.delete(userId)`. */
    function WithoutConnection(userId: string): Session
    {
      this.(connections := connections - {userId}, order := RemoveFirst(order, userId))
    }
  }

  /** The result of one handler: the state after it and the frames it sent, in order. */
  datatype Step = Step(next: Session, out: seq<Delivery>)

  const RoomNotFound: string := "Room not found"
  const NotConnected: string := "Not connected to a room"
  const InvalidFormat: string := "Invalid message format"
  const SystemAuthorId: string := "system"
  const SystemAuthorName: string := "System"

  function JoinNotice(name: string): string
  {
    name + " joined the room"
  }

  function LeaveNotice(name: string): string
  {
    name + " left the room"
  }

  /** `addUserToRoom`, then `clientConnection = …` and `connections.set`: `user` stored and bound to `ws`. */
  function Admitted(s: Session, ws: SocketId, user: User): Session
  {
    var c := Connection(ws, user.id, user.roomId, user.name);
    s.(tables := s.tables.WithUser(user), bindings := s.bindings[ws := c]).WithConnection(c)
  }

  /** `joined_room`, `messages_history` and `users_list`, read from the tables once the joiner is stored. */
  function Welcome(t: Tables, ws: SocketId, user: User): seq<Delivery>
  {
    var roomId := user.roomId;
    [Delivery(ws, JoinedRoom(user, if roomId in t.rooms then Some(t.rooms[roomId]) else None)),
     Delivery(ws, MessagesHistory(SortByTime(t.History(roomId)))),
     Delivery(ws, UsersList(Present(t.Members(roomId), t.users)))]
  }

  /** The join notice stored, then `user_joined` to the room, the joiner excluded. */
  function JoinAnnounced(s: Session, user: User, messageId: string, now: Timestamp): Step
  {
    var notice := Message(messageId, JoinNotice(user.name), SystemAuthorId, SystemAuthorName, user.roomId, now);
    var next := s.(tables := s.tables.WithMessage(notice));
    Step(next, next.Broadcast(user.roomId, Some(user.id), UserJoined(user, notice, |next.tables.Members(user.roomId)|)))
  }

  /**
   * `join_room`: an unknown room gets one error frame and changes nothing. Otherwise the user is
   * stored and bound, then receives `joined_room`, `messages_history` and `users_list`; then
   * the join notice is stored and `user_joined` goes to the room, excluding the new user.
   */
  function JoinStep(s: Session, ws: SocketId, roomId: string, userId: string, guestDraw: nat,
                    messageId: string, now: Timestamp): Step
    requires guestDraw < 9000
  {
    if roomId !in s.tables.rooms then Step(s, [Delivery(ws, Error(RoomNotFound))])
    else
      var user := User(userId, GenerateGuestName(guestDraw), roomId, now);
      var admitted := Admitted(s, ws, user);
      var announced := JoinAnnounced(admitted, user, messageId, now);
      Step(announced.next, Welcome(admitted.tables, ws, user) + announced.out)
  }

  /**
   * `send_message`: an unbound socket gets one error frame and changes nothing; a bound one
   * stores the message under its user, name and room and broadcasts it to the whole room.
   */
  function SendStep(s: Session, ws: SocketId, content: string, messageId: string, now: Timestamp): Step
  {
    if ws !in s.bindings then Step(s, [Delivery(ws, Error(NotConnected))])
    else
      var c := s.bindings[ws];
      var m := Message(messageId, content, c.userId, c.userName, c.roomId, now);
      var next := s.(tables := s.tables.WithMessage(m));
      Step(next, next.Broadcast(c.roomId, None, NewMessage(m)))
  }

  /** `ws.on('message')`: parse failure, the two known types, and any other type. */
  function MessageStep(s: Session, ws: SocketId, frame: ClientFrame, userId: string, guestDraw: nat,
                       messageId: string, now: Timestamp): Step
    requires guestDraw < 9000
  {
    match frame
    case Unparseable => Step(s, [Delivery(ws, Error(InvalidFormat))])
    case JoinRoom(roomId) => JoinStep(s, ws, roomId, userId, guestDraw, messageId, now)
    case SendMessage(content) => SendStep(s, ws, content, messageId, now)
    case OtherType(_) => Step(s, [])
  }

  /** `removeUserFromRoom` and `connections.delete` for the user bound to a socket that is no longer open. */
  function Departed(s: Session, ws: SocketId): Session
    requires ws in s.bindings
  {
    var c := s.bindings[ws];
    s.(open := s.open - {ws}).WithoutConnection(c.userId).(tables := s.tables.WithoutUser(c.userId, c.roomId))
  }

  /** The leave notice stored, then `user_left` to the whole room. */
  function LeaveAnnounced(s: Session, c: Connection, messageId: string, now: Timestamp): Step
  {
    var notice := Message(messageId, LeaveNotice(c.userName), SystemAuthorId, SystemAuthorName, c.roomId, now);
    var next := s.(tables := s.tables.WithMessage(notice));
    Step(next, next.Broadcast(c.roomId, None, UserLeft(c.userId, notice, |next.tables.Members(c.roomId)|)))
  }

  /**
   * `ws.on('close')`: the socket is no longer open; a bound socket's user leaves the store and
   * the table, the leave notice is stored and `user_left` goes to the room with the new count.
   */
  function CloseStep(s: Session, ws: SocketId, messageId: string, now: Timestamp): Step
  {
    if ws !in s.bindings then Step(s.(open := s.open - {ws}), [])
    else LeaveAnnounced(Departed(s, ws), s.bindings[ws], messageId, now)
  }

  // ---------------------------------------------------------------------------------------
  // What the steps keep and promise

  /** A message whose id is not stored is in no room's history. */
  lemma FreshMessageNotInHistory(t: Tables, m: Message, roomId: string)
    requires t.Valid() && m.id !in t.messages
    ensures m !in t.History(roomId)
  {
    HistoryIsComplete(t, roomId);
    var ids := ListAt(t.roomMessages, roomId);
    forall i | 0 <= i < |t.History(roomId)| ensures t.History(roomId)[i] != m {
      assert ids[i] in ids;
    }
  }

  /** Binding a fresh user id on an open socket keeps the connection-table part of the invariant. */
  lemma BindKeepsValid(s: Session, c: Connection, tables: Tables)
    requires s.Valid() && tables.Valid() && c.socket in s.open && c.userId !in s.connections
    ensures s.(tables := tables, bindings := s.bindings[c.socket := c]).WithConnection(c).Valid()
  {
    var s' := s.(tables := tables, bindings := s.bindings[c.socket := c]).WithConnection(c);
    assert s'.order == s.order + [c.userId];
    assert OrderLists(s'.order, s'.connections);
    assert ConnectionsBound(s'.connections, s'.bindings);
    assert OpenBindingsListed(s'.bindings, s'.open, s'.connections);
  }

  /** Closing a bound socket and dropping its user's connection keeps the connection-table part. */
  lemma UnbindKeepsValid(s: Session, ws: SocketId, tables: Tables)
    requires s.Valid() && tables.Valid() && ws in s.open && ws in s.bindings
    ensures s.(open := s.open - {ws}).WithoutConnection(s.bindings[ws].userId).(tables := tables).Valid()
  {
    var u := s.bindings[ws].userId;
    var s' := s.(open := s.open - {ws}).WithoutConnection(u).(tables := tables);
    RemoveFirstKeepsSet(s.order, u);
    assert OrderLists(s'.order, s'.connections);
    assert ConnectionsBound(s'.connections, s'.bindings);
    forall o | o in s'.bindings && o in s'.open
      ensures s'.bindings[o].userId in s'.connections && s'.connections[s'.bindings[o].userId] == s'.bindings[o]
    {
      assert s.connections[s.bindings[o].userId] == s.bindings[o];
      assert s.connections[u] == s.bindings[ws];
      assert s.bindings[o].socket == o && s.bindings[ws].socket == ws;
    }
    assert OpenBindingsListed(s'.bindings, s'.open, s'.connections);
  }

  /** Storing a message under a fresh id keeps the invariant, and the time order when nothing stored is later. */
  lemma PostKeepsValid(s: Session, m: Message)
    requires s.Valid() && m.id !in s.tables.messages
    ensures s.(tables := s.tables.WithMessage(m)).Valid()
    ensures s.tables.Ordered() && s.tables.StampedBy(m.timestamp) ==>
              s.tables.WithMessage(m).Ordered() && s.tables.WithMessage(m).StampedBy(m.timestamp)
  {
    AddMessageKeepsValid(s.tables, m);
  }

  /** Admitting a user under an id the table does not hold, on an open socket, keeps the invariant. */
  lemma AdmitKeepsValid(s: Session, ws: SocketId, user: User)
    requires s.Valid() && ws in s.open && user.id !in s.connections
    ensures Admitted(s, ws, user).Valid()
    ensures Admitted(s, ws, user).tables.messages == s.tables.messages
    ensures s.tables.Ordered() ==> Admitted(s, ws, user).tables.Ordered()
  {
    AddUserKeepsValid(s.tables, user);
    BindKeepsValid(s, Connection(ws, user.id, user.roomId, user.name), s.tables.WithUser(user));
  }

  /** A departure keeps the invariant and the time order, and only ever drops stored messages. */
  lemma DepartKeepsValid(s: Session, ws: SocketId)
    requires s.Valid() && ws in s.open && ws in s.bindings
    ensures Departed(s, ws).Valid()
    ensures forall k :: k in Departed(s, ws).tables.messages ==>
              k in s.tables.messages && Departed(s, ws).tables.messages[k] == s.tables.messages[k]
    ensures s.tables.Ordered() ==> Departed(s, ws).tables.Ordered()
  {
    var c := s.bindings[ws];
    RemoveUserKeepsValid(s.tables, c.userId, c.roomId);
    UnbindKeepsValid(s, ws, s.tables.WithoutUser(c.userId, c.roomId));
  }

  lemma JoinKeepsValid(s: Session, ws: SocketId, roomId: string, userId: string, guestDraw: nat,
                       messageId: string, now: Timestamp)
    requires s.Valid() && ws in s.open && guestDraw < 9000
    requires userId !in s.connections && messageId !in s.tables.messages
    ensures JoinStep(s, ws, roomId, userId, guestDraw, messageId, now).next.Valid()
  {
    if roomId in s.tables.rooms {
      var user := User(userId, GenerateGuestName(guestDraw), roomId, now);
      AdmitKeepsValid(s, ws, user);
      PostKeepsValid(Admitted(s, ws, user),
                     Message(messageId, JoinNotice(user.name), SystemAuthorId, SystemAuthorName, roomId, now));
    }
  }

  lemma JoinKeepsOrder(s: Session, ws: SocketId, roomId: string, userId: string, guestDraw: nat,
                       messageId: string, now: Timestamp)
    requires s.Valid() && s.tables.Ordered() && s.tables.StampedBy(now) && guestDraw < 9000
    requires messageId !in s.tables.messages
    ensures JoinStep(s, ws, roomId, userId, guestDraw, messageId, now).next.tables.Ordered()
    ensures JoinStep(s, ws, roomId, userId, guestDraw, messageId, now).next.tables.StampedBy(now)
  {
    if roomId in s.tables.rooms {
      var user := User(userId, GenerateGuestName(guestDraw), roomId, now);
      AddUserKeepsValid(s.tables, user);
      var notice := Message(messageId, JoinNotice(user.name), SystemAuthorId, SystemAuthorName, roomId, now);
      AddMessageKeepsValid(s.tables.WithUser(user), notice);
    }
  }

  /**
   * The three frames the joiner receives: its user and the room with a count that includes it,
   * the room's history in insertion order, and a member list that includes it.
   */
  lemma WelcomeFrames(t: Tables, ws: SocketId, user: User)
    requires t.Valid() && t.Ordered() && user.roomId in t.rooms
    ensures var t' := t.WithUser(user);
            var out := Welcome(t', ws, user);
            && out[0].to == ws && out[1].to == ws && out[2].to == ws
            && out[0].frame.JoinedRoom? && out[0].frame.user == user && out[0].frame.room.Some?
            && out[0].frame.room.value.userCount == |t'.Members(user.roomId)|
            && user.id in t'.Members(user.roomId)
            && out[1].frame == MessagesHistory(t.History(user.roomId))
            && out[2].frame.UsersList? && user in out[2].frame.users
  {
    var t' := t.WithUser(user);
    JoinedUserIsMember(t, user);
    AddUserKeepsValid(t, user);
    assert t'.History(user.roomId) == t.History(user.roomId);
    HistoryInTimeOrder(t, user.roomId);
    SortByTimeKeepsOrdered(t.History(user.roomId));
    PresentMembers(t'.Members(user.roomId), t'.users);
  }

  /**
   * A successful join: the joiner is bound and in the table; `joined_room` carries a count that
   * includes the joiner, `messages_history` the room's messages in insertion order without the
   * joiner's own notice, and `users_list` includes the joiner; every later frame is that
   * `user_joined`, and none goes to the joining socket if it was not bound before.
   */
  lemma JoinFrames(s: Session, ws: SocketId, roomId: string, userId: string, guestDraw: nat,
                   messageId: string, now: Timestamp)
    requires s.Valid() && s.tables.Ordered() && ws in s.open && guestDraw < 9000
    requires roomId in s.tables.rooms && s.tables.UnusedUserId(userId) && userId !in s.connections
    requires messageId !in s.tables.messages
    ensures var step := JoinStep(s, ws, roomId, userId, guestDraw, messageId, now);
            var user := User(userId, GenerateGuestName(guestDraw), roomId, now);
            var notice := Message(messageId, JoinNotice(user.name), SystemAuthorId, SystemAuthorName, roomId, now);
            && |step.out| >= 3
            && step.next.bindings[ws] == Connection(ws, userId, roomId, user.name)
            && step.next.connections[userId] == step.next.bindings[ws]
            && step.out[0].to == ws && step.out[1].to == ws && step.out[2].to == ws
            && step.out[0].frame.JoinedRoom? && step.out[0].frame.user == user
            && step.out[0].frame.room.Some?
            && step.out[0].frame.room.value.userCount == |step.next.tables.Members(roomId)|
            && userId in step.next.tables.Members(roomId)
            && step.out[1].frame == MessagesHistory(s.tables.History(roomId))
            && notice !in step.out[1].frame.messages
            && step.out[2].frame.UsersList? && user in step.out[2].frame.users
            && step.next.tables.History(roomId) == s.tables.History(roomId) + [notice]
            && (forall d :: d in step.out[3..] ==> d.frame == UserJoined(user, notice, |step.next.tables.Members(roomId)|))
            && (forall k :: k in s.connections && s.connections[k].roomId == roomId && s.connections[k].socket in s.open
                  ==> Delivery(s.connections[k].socket, UserJoined(user, notice, |step.next.tables.Members(roomId)|)) in step.out[3..])
            && (forall d :: d in step.out[3..] ==> exists k :: k in s.connections && s.connections[k].roomId == roomId
                                                             && s.connections[k].socket in s.open && d.to == s.connections[k].socket)
            && (ws !in s.bindings ==> forall d :: d in step.out[3..] ==> d.to != ws)
  {
    var step := JoinStep(s, ws, roomId, userId, guestDraw, messageId, now);
    var user := User(userId, GenerateGuestName(guestDraw), roomId, now);
    var notice := Message(messageId, JoinNotice(user.name), SystemAuthorId, SystemAuthorName, roomId, now);
    var admitted := Admitted(s, ws, user);
    var announced := JoinAnnounced(admitted, user, messageId, now);
    assert step == Step(announced.next, Welcome(admitted.tables, ws, user) + announced.out);
    WelcomeFrames(s.tables, ws, user);
    FreshMessageNotInHistory(s.tables, notice, roomId);
    assert step.next.tables.Members(roomId) == admitted.tables.Members(roomId);
    assert step.out[3..] == announced.out;
    JoinNoticeRecipients(s, ws, user, messageId, now);
    AddUserKeepsValid(s.tables, user);
    assert admitted.tables.History(roomId) == s.tables.History(roomId);
    PostedMessageIsLast(admitted.tables, notice);
  }

  /**
   * The join notice goes out only as `user_joined`, to every open connection that was already in
   * the room and to no other socket; a socket bound only now does not get it.
   */
  lemma JoinNoticeRecipients(s: Session, ws: SocketId, user: User, messageId: string, now: Timestamp)
    requires s.Valid() && ws in s.open && user.id !in s.connections
    ensures var a := JoinAnnounced(Admitted(s, ws, user), user, messageId, now);
            var notice := Message(messageId, JoinNotice(user.name), SystemAuthorId, SystemAuthorName, user.roomId, now);
            var frame := UserJoined(user, notice, |a.next.tables.Members(user.roomId)|);
            && (forall d :: d in a.out ==> d.frame == frame)
            && (forall k :: k in s.connections && s.connections[k].roomId == user.roomId && s.connections[k].socket in s.open
                  ==> Delivery(s.connections[k].socket, frame) in a.out)
            && (forall d :: d in a.out ==> exists k :: k in s.connections && s.connections[k].roomId == user.roomId
                                                      && s.connections[k].socket in s.open && d.to == s.connections[k].socket)
            && (ws !in s.bindings ==> forall d :: d in a.out ==> d.to != ws)
  {
    var admitted := Admitted(s, ws, user);
    var a := JoinAnnounced(admitted, user, messageId, now);
    var notice := Message(messageId, JoinNotice(user.name), SystemAuthorId, SystemAuthorName, user.roomId, now);
    var frame := UserJoined(user, notice, |a.next.tables.Members(user.roomId)|);
    assert a.next.order == s.order + [user.id];
    assert a.next.connections == s.connections[user.id := Connection(ws, user.id, user.roomId, user.name)];
    assert a.next.open == s.open;
    assert a.out == Fanout(a.next.order, a.next.connections, a.next.open, user.roomId, Some(user.id), frame);
    FanoutRecipients(a.next.order, a.next.connections, a.next.open, user.roomId, Some(user.id), frame);
    forall d | d in a.out
      ensures exists k :: k in s.connections && s.connections[k].roomId == user.roomId
                          && s.connections[k].socket in s.open && d.to == s.connections[k].socket
    {
      var k :| k in a.next.order && k in a.next.connections && Receives(a.next.connections[k], a.next.open, user.roomId, Some(user.id))
               && d.to == a.next.connections[k].socket;
      assert k != user.id && k in s.connections;
    }
    forall k | k in s.connections && s.connections[k].roomId == user.roomId && s.connections[k].socket in s.open
      ensures Delivery(s.connections[k].socket, frame) in a.out
    {
      assert k in s.order && k != user.id;
      assert a.next.connections[k] == s.connections[k];
    }
    if ws !in s.bindings {
      FanoutSkips(a.next.order, a.next.connections, a.next.open, user.roomId, Some(user.id), frame, ws);
    }
  }

  lemma SendKeepsValid(s: Session, ws: SocketId, content: string, messageId: string, now: Timestamp)
    requires s.Valid() && messageId !in s.tables.messages
    ensures SendStep(s, ws, content, messageId, now).next.Valid()
    ensures s.tables.Ordered() && s.tables.StampedBy(now) ==>
              SendStep(s, ws, content, messageId, now).next.tables.Ordered()
              && SendStep(s, ws, content, messageId, now).next.tables.StampedBy(now)
  {
    if ws in s.bindings {
      var c := s.bindings[ws];
      AddMessageKeepsValid(s.tables, Message(messageId, content, c.userId, c.userName, c.roomId, now));
    }
  }

  /**
   * A message from a bound socket is stored at the end of its room's history, authored by the
   * bound user; every open connection of that room receives it, the sender's included, and no other socket does.
   */
  lemma SentMessageReachesRoom(s: Session, ws: SocketId, content: string, messageId: string, now: Timestamp)
    requires s.Valid() && ws in s.open && ws in s.bindings && messageId !in s.tables.messages
    ensures var c := s.bindings[ws];
            var m := Message(messageId, content, c.userId, c.userName, c.roomId, now);
            var step := SendStep(s, ws, content, messageId, now);
            && step.next.tables.History(c.roomId) == s.tables.History(c.roomId) + [m]
            && Delivery(ws, NewMessage(m)) in step.out
            && (forall d :: d in step.out ==> d.frame == NewMessage(m))
            && (forall k :: k in s.connections && s.connections[k].roomId == c.roomId && s.connections[k].socket in s.open
                  ==> Delivery(s.connections[k].socket, NewMessage(m)) in step.out)
            && (forall d :: d in step.out ==> exists k :: k in s.connections && s.connections[k].roomId == c.roomId
                                                         && s.connections[k].socket in s.open && d.to == s.connections[k].socket)
  {
    var c := s.bindings[ws];
    var m := Message(messageId, content, c.userId, c.userName, c.roomId, now);
    PostedMessageIsLast(s.tables, m);
    var step := SendStep(s, ws, content, messageId, now);
    FanoutRecipients(s.order, s.connections, s.open, c.roomId, None, NewMessage(m));
    assert c.userId in s.order;
  }

  lemma CloseKeepsValid(s: Session, ws: SocketId, messageId: string, now: Timestamp)
    requires s.Valid() && ws in s.open && messageId !in s.tables.messages
    ensures CloseStep(s, ws, messageId, now).next.Valid()
    ensures s.tables.Ordered() && s.tables.StampedBy(now) ==>
              CloseStep(s, ws, messageId, now).next.tables.Ordered()
              && CloseStep(s, ws, messageId, now).next.tables.StampedBy(now)
  {
    if ws in s.bindings {
      var c := s.bindings[ws];
      DepartKeepsValid(s, ws);
      PostKeepsValid(Departed(s, ws),
                     Message(messageId, LeaveNotice(c.userName), SystemAuthorId, SystemAuthorName, c.roomId, now));
    } else {
      assert OpenBindingsListed(s.bindings, s.open - {ws}, s.connections);
    }
  }

  /**
   * Closing a bound socket: its user is gone from the store and the table, the leave notice
   * is appended to what remains of the room's stored history (all of it, while the room
   * survives), and `user_left` carries the count after the departure and
   * goes to every other connection of the room whose socket is still open, and to no other socket.
   */
  lemma CloseFrames(s: Session, ws: SocketId, messageId: string, now: Timestamp)
    requires s.Valid() && ws in s.open && ws in s.bindings && messageId !in s.tables.messages
    ensures var c := s.bindings[ws];
            var step := CloseStep(s, ws, messageId, now);
            var notice := Message(messageId, LeaveNotice(c.userName), SystemAuthorId, SystemAuthorName, c.roomId, now);
            var frame := UserLeft(c.userId, notice, |step.next.tables.Members(c.roomId)|);
            && ws !in step.next.open
            && c.userId !in step.next.tables.users && c.userId !in step.next.connections
            && c.userId !in step.next.tables.Members(c.roomId)
            && step.next.tables.History(c.roomId) == Departed(s, ws).tables.History(c.roomId) + [notice]
            && (c.roomId in step.next.tables.rooms ==> step.next.tables.History(c.roomId) == s.tables.History(c.roomId) + [notice])
            && (forall d :: d in step.out ==> d.to != ws && d.frame == frame)
            && (forall k :: k in s.connections && k != c.userId && s.connections[k].roomId == c.roomId
                            && s.connections[k].socket in s.open - {ws}
                  ==> Delivery(s.connections[k].socket, frame) in step.out)
            && (forall d :: d in step.out ==> exists k :: k in s.connections && k != c.userId && s.connections[k].roomId == c.roomId
                                                         && s.connections[k].socket in s.open - {ws} && d.to == s.connections[k].socket)
  {
    var c := s.bindings[ws];
    var departed := Departed(s, ws);
    var step := CloseStep(s, ws, messageId, now);
    assert step == LeaveAnnounced(departed, c, messageId, now);
    DepartKeepsValid(s, ws);
    LeftUserIsGone(s.tables, c.userId, c.roomId);
    var notice := Message(messageId, LeaveNotice(c.userName), SystemAuthorId, SystemAuthorName, c.roomId, now);
    PostedMessageIsLast(departed.tables, notice);
    if c.roomId in step.next.tables.rooms {
      assert departed.tables.History(c.roomId) == s.tables.History(c.roomId);
    }
    assert step.next.tables.Members(c.roomId) == departed.tables.Members(c.roomId);
    var frame := UserLeft(c.userId, notice, |step.next.tables.Members(c.roomId)|);
    assert step.next.connections == s.connections - {c.userId};
    assert step.next.open == s.open - {ws};
    FanoutRecipients(step.next.order, step.next.connections, step.next.open, c.roomId, None, frame);
    forall k | k in s.connections && k != c.userId && s.connections[k].roomId == c.roomId
               && s.connections[k].socket in s.open - {ws}
      ensures Delivery(s.connections[k].socket, frame) in step.out
    {
      assert k in step.next.order;
    }
  }

  /**
   * When the last member leaves, the room is deleted before the leave notice is stored, so the
   * notice starts a fresh message list under the deleted room's id.
   */
  lemma LeaveNoticeOutlivesRoom(s: Session, ws: SocketId, messageId: string, now: Timestamp)
    requires s.Valid() && ws in s.open && ws in s.bindings && messageId !in s.tables.messages
    requires s.tables.Members(s.bindings[ws].roomId) == [s.bindings[ws].userId]
    ensures var c := s.bindings[ws];
            var step := CloseStep(s, ws, messageId, now);
            && c.roomId !in step.next.tables.rooms
            && step.next.tables.History(c.roomId)
               == [Message(messageId, LeaveNotice(c.userName), SystemAuthorId, SystemAuthorName, c.roomId, now)]
  {
    var c := s.bindings[ws];
    EmptiedRoomIsDeleted(s.tables, c.userId, c.roomId);
    var left := s.tables.WithoutUser(c.userId, c.roomId);
    RemoveUserKeepsValid(s.tables, c.userId, c.roomId);
    assert left.messages.Keys <= s.tables.messages.Keys;
    var notice := Message(messageId, LeaveNotice(c.userName), SystemAuthorId, SystemAuthorName, c.roomId, now);
    PostedMessageIsLast(left, notice);
    assert c.roomId !in left.roomMessages;
  }

  /** A frame that does not parse gets one error and a frame of unknown type gets nothing; neither changes state. */
  lemma MalformedFramesChangeNothing(s: Session, ws: SocketId, kind: string, userId: string, guestDraw: nat,
                                     messageId: string, now: Timestamp)
    requires guestDraw < 9000
    ensures MessageStep(s, ws, Unparseable, userId, guestDraw, messageId, now) == Step(s, [Delivery(ws, Error(InvalidFormat))])
    ensures MessageStep(s, ws, OtherType(kind), userId, guestDraw, messageId, now) == Step(s, [])
  {
  }

  /**
   * The refusals: `join_room` for a room the store does not hold and `send_message` on a socket
   * that never joined each get one error frame and change nothing; closing such a socket only
   * marks it closed and sends nothing.
   */
  lemma RefusedFramesChangeNothing(s: Session, ws: SocketId, roomId: string, content: string, userId: string,
                                   guestDraw: nat, messageId: string, now: Timestamp)
    requires guestDraw < 9000
    ensures roomId !in s.tables.rooms ==>
              MessageStep(s, ws, JoinRoom(roomId), userId, guestDraw, messageId, now) == Step(s, [Delivery(ws, Error(RoomNotFound))])
    ensures ws !in s.bindings ==>
              MessageStep(s, ws, SendMessage(content), userId, guestDraw, messageId, now) == Step(s, [Delivery(ws, Error(NotConnected))])
    ensures ws !in s.bindings ==> CloseStep(s, ws, messageId, now) == Step(s.(open := s.open - {ws}), [])
  {
  }

  // ---------------------------------------------------------------------------------------
  // The coordinator

  class ChatServer {
    const store: MemStorage
    /** `connections`: user id to connection. */
    var connections: map<string, Connection>
    /** The iteration order of `connections`. */
    var connectionOrder: seq<string>
    /** Each socket's `clientConnection`, once its `join_room` has succeeded. */
    var bindings: map<SocketId, Connection>
    /** Sockets whose `readyState` is `OPEN`. */
    var open: set<SocketId>
    /** No stored message is later than this instant, and the next step's clock reads no earlier. */
    ghost var clock: Timestamp

    function View(): Session
      reads this, store
    {
      Session(store.View(), connections, connectionOrder, bindings, open)
    }

    ghost predicate Valid()
      reads this, store
    {
      View().Valid() && store.View().Ordered() && store.View().StampedBy(clock)
    }

    constructor ()
      ensures Valid() && fresh(store)
      ensures View() == Session(Tables(map[], map[], map[], map[], map[]), map[], [], map[], {})
    {
      store := new MemStorage();
      connections, connectionOrder, bindings, open := map[], [], map[], {};
      clock := 0;
    }

    /** `wss.on('connection')`: a new socket, open and unbound. */
    method Connect(ws: SocketId)
      requires Valid() && ws !in bindings && ws !in open
      modifies this
      ensures Valid() && View() == old(View()).(open := old(open) + {ws})
    {
      open := open + {ws};
    }

    /** `POST /api/rooms`: a generated id and a fresh room under it. */
    method CreateRoomRoute(draws: seq<nat>, now: Timestamp) returns (room: Room)
      requires Valid() && |draws| == 8 && forall i :: 0 <= i < 8 ==> draws[i] < |RoomIdChars|
      modifies store
      ensures Valid() && IsRoomId(room.id) && room.userCount == 0
      ensures View() == old(View()).(tables := old(store.View()).WithRoom(room))
    {
      var roomId := GenerateRoomId(draws);
      room := store.CreateRoom(InsertRoom(roomId), now);
    }

    /** `broadcastToRoom`: a `forEach` over the connection table. */
    method Broadcast(roomId: string, frame: ServerFrame, exclude: Option<string>) returns (out: seq<Delivery>)
      requires forall k :: k in connectionOrder ==> k in connections
      ensures out == View().Broadcast(roomId, exclude, frame)
      ensures forall d :: d in out ==> d.frame == frame
    {
      FanoutRecipients(connectionOrder, connections, open, roomId, exclude, frame);
      out := [];
      var i := 0;
      while i < |connectionOrder|
        invariant 0 <= i <= |connectionOrder|
        invariant out == Fanout(connectionOrder[..i], connections, open, roomId, exclude, frame)
      {
        assert connectionOrder[..i + 1][..i] == connectionOrder[..i];
        var connection := connections[connectionOrder[i]];
        if Receives(connection, open, roomId, exclude) {
          out := out + [Delivery(connection.socket, frame)];
        }
        i := i + 1;
      }
      assert connectionOrder[..i] == connectionOrder;
    }

    /** The `join_room` case. */
    method HandleJoin(ws: SocketId, roomId: string, userId: string, guestDraw: nat, messageId: string, now: Timestamp)
      returns (out: seq<Delivery>)
      requires Valid() && ws in open && clock <= now && guestDraw < 9000
      requires store.View().UnusedUserId(userId) && userId !in connections && messageId !in store.messages
      modifies this, store
      ensures Valid() && clock == now
      ensures Step(View(), out) == JoinStep(old(View()), ws, roomId, userId, guestDraw, messageId, now)
    {
      var room := store.GetRoom(roomId);
      if room.None? {
        out := [Delivery(ws, Error(RoomNotFound))];
        clock := now;
        return;
      }
      var userName := GenerateGuestName(guestDraw);
      var user := Admit(ws, roomId, userId, userName, now);
      var joinedRoom := store.GetRoom(roomId);
      var messages := store.GetMessagesInRoom(roomId);
      var users := store.GetUsersInRoom(roomId);
      var sent := AnnounceJoin(user, messageId, now);
      out := [Delivery(ws, JoinedRoom(user, joinedRoom)),
              Delivery(ws, MessagesHistory(messages)),
              Delivery(ws, UsersList(users))] + sent;
    }

    /** `addUserToRoom`, then `clientConnection = …` and `connections.set(userId, clientConnection)`. */
    method Admit(ws: SocketId, roomId: string, userId: string, userName: string, now: Timestamp) returns (user: User)
      requires Valid() && ws in open && clock <= now && userId !in connections
      modifies this, store
      ensures Valid() && clock == now
      ensures user == User(userId, userName, roomId, now)
      ensures View() == Admitted(old(View()), ws, user)
    {
      ghost var s := View();
      user := store.AddUserToRoom(InsertUser(userId, userName, roomId), now);
      ghost var tables := store.View();
      var clientConnection := Connection(ws, userId, roomId, userName);
      bindings, connections, connectionOrder, clock :=
        bindings[ws := clientConnection], connections[userId := clientConnection], connectionOrder + [userId], now;
      assert store.View() == tables;
      assert Admitted(s, ws, user) == Session(tables, connections, connectionOrder, bindings, open);
      AdmitKeepsValid(s, ws, user);
    }

    /** The join notice: `addMessage`, then `broadcastToRoom` of `user_joined` excluding the joiner. */
    method AnnounceJoin(user: User, messageId: string, now: Timestamp) returns (sent: seq<Delivery>)
      requires Valid() && clock <= now && messageId !in store.messages
      modifies this, store
      ensures Valid() && clock == now
      ensures Step(View(), sent) == JoinAnnounced(old(View()), user, messageId, now)
    {
      ghost var s := View();
      var joinMessage := store.AddMessage(InsertMessage(JoinNotice(user.name), SystemAuthorId, SystemAuthorName, user.roomId),
                                          messageId, now);
      PostKeepsValid(s, joinMessage);
      clock := now;
      var userCount := store.GetRoomUserCount(user.roomId);
      sent := Broadcast(user.roomId, UserJoined(user, joinMessage, userCount), Some(user.id));
    }

    /** The `send_message` case. */
    method HandleSend(ws: SocketId, content: string, messageId: string, now: Timestamp) returns (out: seq<Delivery>)
      requires Valid() && clock <= now && messageId !in store.messages
      modifies this, store
      ensures Valid() && clock == now
      ensures Step(View(), out) == SendStep(old(View()), ws, content, messageId, now)
    {
      ghost var s := View();
      SendKeepsValid(s, ws, content, messageId, now);
      clock := now;
      if ws !in bindings {
        out := [Delivery(ws, Error(NotConnected))];
        return;
      }
      var clientConnection := bindings[ws];
      var newMessage := store.AddMessage(
        InsertMessage(content, clientConnection.userId, clientConnection.userName, clientConnection.roomId),
        messageId, now);
      out := Broadcast(clientConnection.roomId, NewMessage(newMessage), None);
    }

    /** `ws.on('message')`: the dispatch on the parsed frame's `type`. */
    method HandleMessage(ws: SocketId, frame: ClientFrame, userId: string, guestDraw: nat, messageId: string,
                         now: Timestamp) returns (out: seq<Delivery>)
      requires Valid() && ws in open && clock <= now && guestDraw < 9000
      requires store.View().UnusedUserId(userId) && userId !in connections && messageId !in store.messages
      modifies this, store
      ensures Valid() && old(clock) <= clock <= now
      ensures Step(View(), out) == MessageStep(old(View()), ws, frame, userId, guestDraw, messageId, now)
    {
      match frame {
        case Unparseable =>
          out := [Delivery(ws, Error(InvalidFormat))];
        case JoinRoom(roomId) =>
          out := HandleJoin(ws, roomId, userId, guestDraw, messageId, now);
        case SendMessage(content) =>
          out := HandleSend(ws, content, messageId, now);
        case OtherType(_) =>
          out := [];
      }
    }

    /** `ws.on('close')`. */
    method HandleClose(ws: SocketId, messageId: string, now: Timestamp) returns (out: seq<Delivery>)
      requires Valid() && ws in open && clock <= now && messageId !in store.messages
      modifies this, store
      ensures Valid() && clock == now
      ensures Step(View(), out) == CloseStep(old(View()), ws, messageId, now)
    {
      if ws !in bindings {
        CloseKeepsValid(View(), ws, messageId, now);
        open, clock := open - {ws}, now;
        out := [];
        return;
      }
      var clientConnection := bindings[ws];
      DepartKeepsValid(View(), ws);
      Depart(ws);
      out := AnnounceLeave(clientConnection, messageId, now);
    }

    /** `removeUserFromRoom` and `connections.delete` for the user bound to a socket that closed. */
    method Depart(ws: SocketId)
      requires Valid() && ws in open && ws in bindings
      modifies this, store
      ensures Valid() && clock == old(clock)
      ensures View() == Departed(old(View()), ws)
    {
      ghost var s := View();
      DepartKeepsValid(s, ws);
      var clientConnection := bindings[ws];
      store.RemoveUserFromRoom(clientConnection.userId, clientConnection.roomId);
      open, connections, connectionOrder :=
        open - {ws}, connections - {clientConnection.userId}, RemoveFirst(connectionOrder, clientConnection.userId);
      assert View() == Departed(s, ws);
    }

    /** The leave notice: `addMessage`, then `broadcastToRoom` of `user_left` to the whole room. */
    method AnnounceLeave(c: Connection, messageId: string, now: Timestamp) returns (sent: seq<Delivery>)
      requires Valid() && clock <= now && messageId !in store.messages
      modifies this, store
      ensures Valid() && clock == now
      ensures Step(View(), sent) == LeaveAnnounced(old(View()), c, messageId, now)
    {
      ghost var s := View();
      var leaveMessage := store.AddMessage(
        InsertMessage(LeaveNotice(c.userName), SystemAuthorId, SystemAuthorName, c.roomId), messageId, now);
      PostKeepsValid(s, leaveMessage);
      clock := now;
      var userCount := store.GetRoomUserCount(c.roomId);
      sent := Broadcast(c.roomId, UserLeft(c.userId, leaveMessage, userCount), None);
    }
  }
}
