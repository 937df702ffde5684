/**
 * The server's in-memory room store (`MemStorage`): five maps updated in place, a cached
 * user count per room, and the rule that a room whose member set empties is deleted at once.
 */
module Storage {
  import opened Schema
  import opened Seqs

  /** `map.get(k) || []` and `map.get(k) || new Set()`: an absent list reads as empty. */
  function ListAt<V>(m: map<string, seq<V>>, k: string): seq<V>
  {
    if k in m then m[k] else []
  }

  /** The records of those `ids` that have one, in the order of `ids` (a `forEach` that skips misses). */
  function Present<V>(ids: seq<string>, records: map<string, V>): (r: seq<V>)
    ensures |r| <= |ids|
  {
    if ids == [] then []
    else
      var last := ids[|ids| - 1];
      Present(ids[..|ids| - 1], records) + if last in records then [records[last]] else []
  }

  lemma PresentAppend<V>(ids: seq<string>, k: string, records: map<string, V>)
    ensures Present(ids + [k], records) == Present(ids, records) + if k in records then [records[k]] else []
  {
    assert (ids + [k])[..|ids|] == ids;
  }

  /** Exactly the ids that have a record contribute, each its own record. */
  lemma {:induction false} PresentMembers<V>(ids: seq<string>, records: map<string, V>)
    ensures forall k :: k in ids && k in records ==> records[k] in Present(ids, records)
    ensures forall v :: v in Present(ids, records) ==> exists k :: k in ids && k in records && records[k] == v
  {
    if ids != [] {
      var init, last := ids[..|ids| - 1], ids[|ids| - 1];
      PresentMembers(init, records);
      assert ids == init + [last];
    }
  }

  /** When every id has a record, the result lines up with the ids one for one. */
  lemma {:induction false} PresentAll<V>(ids: seq<string>, records: map<string, V>)
    requires forall k :: k in ids ==> k in records
    ensures |Present(ids, records)| == |ids|
    ensures forall i :: 0 <= i < |ids| ==> Present(ids, records)[i] == records[ids[i]]
  {
    if ids != [] {
      var init := ids[..|ids| - 1];
      assert forall k :: k in init ==> k in ids;
      PresentAll(init, records);
    }
  }

  /** Records that `ids` does not mention can change without changing what `ids` reads. */
  lemma {:induction false} PresentUnaffected<V>(ids: seq<string>, a: map<string, V>, b: map<string, V>)
    requires forall k :: k in ids ==> (k in a <==> k in b) && (k in a ==> a[k] == b[k])
    ensures Present(ids, a) == Present(ids, b)
  {
    if ids != [] {
      var init := ids[..|ids| - 1];
      assert forall k :: k in init ==> k in ids;
      PresentUnaffected(init, a, b);
    }
  }

  /** Non-decreasing by timestamp. */
  predicate TimeOrdered(ms: seq<Message>)
  {
    forall i :: 0 < i < |ms| ==> ms[i - 1].timestamp <= ms[i].timestamp
  }

  lemma {:induction false} TimeOrderedBetween(ms: seq<Message>, i: nat, j: nat)
    requires TimeOrdered(ms) && i <= j < |ms|
    ensures ms[i].timestamp <= ms[j].timestamp
    decreases j - i
  {
    if i < j {
      TimeOrderedBetween(ms, i, j - 1);
    }
  }

  /** Insert `m` after every message not later than it: the step of a stable insertion sort. */
  function InsertByTime(m: Message, ms: seq<Message>): (r: seq<Message>)
    requires TimeOrdered(ms)
    ensures |r| == |ms| + 1
    ensures r[0] == m || (ms != [] && r[0] == ms[0])
    ensures TimeOrdered(r)
  {
    if ms == [] then [m]
    else if m.timestamp < ms[0].timestamp then [m] + ms
    else
      assert ms == [ms[0]] + ms[1..];
      [ms[0]] + InsertByTime(m, ms[1..])
  }

  /**
   * `messages.sort((a, b) => time(a) - time(b))`. ECMAScript requires `Array.prototype.sort`
   * to be stable, so this is a stable sort: by timestamp, ties in their original order.
   */
  function SortByTime(ms: seq<Message>): (r: seq<Message>)
    ensures TimeOrdered(r)
    ensures |r| == |ms|
  {
    if ms == [] then []
    else
      assert ms == ms[..|ms| - 1] + [ms[|ms| - 1]];
      InsertByTime(ms[|ms| - 1], SortByTime(ms[..|ms| - 1]))
  }

  lemma {:induction false} InsertByTimePermutes(m: Message, ms: seq<Message>)
    requires TimeOrdered(ms)
    ensures multiset(InsertByTime(m, ms)) == multiset(ms) + multiset{m}
  {
    if ms != [] && ms[0].timestamp <= m.timestamp {
      assert ms == [ms[0]] + ms[1..];
      InsertByTimePermutes(m, ms[1..]);
    }
  }

  /** Sorting neither loses nor invents a message. */
  lemma {:induction false} SortByTimePermutes(ms: seq<Message>)
    ensures multiset(SortByTime(ms)) == multiset(ms)
  {
    if ms != [] {
      var init, last := ms[..|ms| - 1], ms[|ms| - 1];
      assert ms == init + [last];
      SortByTimePermutes(init);
      InsertByTimePermutes(last, SortByTime(init));
    }
  }

  /** The messages stamped `t`, in order. */
  function AtTime(ms: seq<Message>, t: Timestamp): seq<Message>
  {
    if ms == [] then []
    else (if ms[0].timestamp == t then [ms[0]] else []) + AtTime(ms[1..], t)
  }

  lemma {:induction false} AtTimeAppend(a: seq<Message>, b: seq<Message>, t: Timestamp)
    ensures AtTime(a + b, t) == AtTime(a, t) + AtTime(b, t)
  {
    if a != [] {
      assert (a + b)[1..] == a[1..] + b;
      AtTimeAppend(a[1..], b, t);
    } else {
      assert a + b == b;
    }
  }

  lemma {:induction false} AtTimeNoneBefore(ms: seq<Message>, t: Timestamp)
    requires TimeOrdered(ms) && (ms == [] || t < ms[0].timestamp)
    ensures AtTime(ms, t) == []
  {
    if ms != [] {
      AtTimeNoneBefore(ms[1..], t);
    }
  }

  lemma {:induction false} AtTimeInsert(m: Message, ms: seq<Message>, t: Timestamp)
    requires TimeOrdered(ms)
    ensures AtTime(InsertByTime(m, ms), t) == AtTime(ms, t) + if m.timestamp == t then [m] else []
  {
    if ms == [] {
    } else if m.timestamp < ms[0].timestamp {
      assert ([m] + ms)[1..] == ms;
      if m.timestamp == t {
        AtTimeNoneBefore(ms, t);
      }
    } else {
      var r := [ms[0]] + InsertByTime(m, ms[1..]);
      assert r[1..] == InsertByTime(m, ms[1..]);
      AtTimeInsert(m, ms[1..], t);
    }
  }

  lemma AtTimeSingle(m: Message, t: Timestamp)
    ensures AtTime([m], t) == if m.timestamp == t then [m] else []
  {
    assert [m][1..] == [];
  }

  /** Stability: the messages sharing any one timestamp keep their relative order. */
  lemma {:induction false} SortByTimeStable(ms: seq<Message>, t: Timestamp)
    ensures AtTime(SortByTime(ms), t) == AtTime(ms, t)
  {
    if ms != [] {
      var init, last := ms[..|ms| - 1], ms[|ms| - 1];
      assert ms == init + [last];
      var sorted := SortByTime(init);
      var tail := if last.timestamp == t then [last] else [];
      assert SortByTime(ms) == InsertByTime(last, sorted);
      SortByTimeStable(init, t);
      AtTimeInsert(last, sorted, t);
      assert AtTime(SortByTime(ms), t) == AtTime(init, t) + tail;
      AtTimeAppend(init, [last], t);
      AtTimeSingle(last, t);
    }
  }

  lemma {:induction false} InsertByTimeAtEnd(m: Message, ms: seq<Message>)
    requires TimeOrdered(ms)
    requires ms == [] || ms[|ms| - 1].timestamp <= m.timestamp
    ensures InsertByTime(m, ms) == ms + [m]
  {
    if ms != [] {
      var rest := ms[1..];
      TimeOrderedBetween(ms, 0, |ms| - 1);
      assert TimeOrdered(rest);
      assert rest == [] || rest[|rest| - 1] == ms[|ms| - 1];
      InsertByTimeAtEnd(m, rest);
      assert InsertByTime(m, ms) == [ms[0]] + (rest + [m]);
      assert ms == [ms[0]] + rest;
    }
  }

  /** A list already in time order comes back as it is: sorting then keeps insertion order. */
  lemma {:induction false} SortByTimeKeepsOrdered(ms: seq<Message>)
    requires TimeOrdered(ms)
    ensures SortByTime(ms) == ms
  {
    if ms != [] {
      var init, last := ms[..|ms| - 1], ms[|ms| - 1];
      SortByTimeKeepsOrdered(init);
      InsertByTimeAtEnd(last, init);
      assert ms == init + [last];
    }
  }

  // The store's invariant, one predicate per concern, each over only the maps it reads.

  /** Every room sits under its own id, has both index entries, and caches its member count. */
  ghost predicate RoomsIndexed(rooms: map<string, Room>, roomUsers: map<string, seq<string>>,
                               roomMessages: map<string, seq<string>>)
  {
    forall r :: r in rooms ==>
      rooms[r].id == r && r in roomUsers && r in roomMessages && rooms[r].userCount == |roomUsers[r]|
  }

  /** Every member set holds each id once. */
  ghost predicate SetsDistinct(roomUsers: map<string, seq<string>>)
  {
    forall r :: r in roomUsers ==> NoDup(roomUsers[r])
  }

  ghost predicate UsersKeyed(users: map<string, User>)
  {
    forall k :: k in users ==> users[k].id == k
  }

  ghost predicate MessagesKeyed(messages: map<string, Message>)
  {
    forall k :: k in messages ==> messages[k].id == k
  }

  /** Every listed message id is stored, as a message of the room that lists it. */
  ghost predicate ListsStored(roomMessages: map<string, seq<string>>, messages: map<string, Message>)
  {
    forall r, k :: r in roomMessages && k in roomMessages[r] ==> k in messages && messages[k].roomId == r
  }

  /** An empty member set only exists for a room that exists (bar the ids in `exempt`). */
  ghost predicate EmptySetsHaveRooms(rooms: map<string, Room>, roomUsers: map<string, seq<string>>,
                                     exempt: set<string>)
  {
    forall r :: r in roomUsers && r !in exempt && roomUsers[r] == [] ==> r in rooms
  }

  /** Along every room's list, message timestamps do not decrease. */
  ghost predicate HistoriesOrdered(roomMessages: map<string, seq<string>>, messages: map<string, Message>)
  {
    forall r, i :: r in roomMessages && 0 < i < |roomMessages[r]|
      && roomMessages[r][i - 1] in messages && roomMessages[r][i] in messages
      ==> messages[roomMessages[r][i - 1]].timestamp <= messages[roomMessages[r][i]].timestamp
  }

  /** The five maps of the store taken together as one value: what its invariant and lemmas speak about. */
  datatype Tables = Tables(
    rooms: map<string, Room>,
    users: map<string, User>,
    messages: map<string, Message>,
    roomUsers: map<string, seq<string>>,
    roomMessages: map<string, seq<string>>)
  {
    /** The member ids of a room, in join order; none for an unknown room. */
    function Members(roomId: string): seq<string>
    {
      ListAt(roomUsers, roomId)
    }

    /** The stored messages of a room, in insertion order. */
    function History(roomId: string): seq<Message>
    {
      Present(ListAt(roomMessages, roomId), messages)
    }

    /** The invariant minus the empty-set rule, which `deleteRoom` is allowed to find broken for its own room. */
    ghost predicate Coherent()
    {
      && RoomsIndexed(rooms, roomUsers, roomMessages)
      && SetsDistinct(roomUsers)
      && UsersKeyed(users)
      && MessagesKeyed(messages)
      && ListsStored(roomMessages, messages)
    }

    ghost predicate Valid()
    {
      Coherent() && EmptySetsHaveRooms(rooms, roomUsers, {})
    }

    ghost predicate Ordered()
    {
      HistoriesOrdered(roomMessages, messages)
    }

    /** No record and no member set mentions this user id yet. */
    ghost predicate UnusedUserId(id: string)
    {
      id !in users && forall r :: r in roomUsers ==> id !in roomUsers[r]
    }

    /** Every stored message is stamped no later than `t`. */
    ghost predicate StampedBy(t: Timestamp)
    {
      forall k :: k in messages ==> messages[k].timestamp <= t
    }

    /** The tables after `createRoom` stores `room`. */
    function WithRoom(room: Room): Tables
    {
      this.(rooms := rooms[room.id := room],
            roomUsers := roomUsers[room.id := []],
            roomMessages := roomMessages[room.id := []])
    }

    /** The room's cached count, if the room exists, set to `count`. */
    function Recounted(roomId: string, count: nat): map<string, Room>
    {
      if roomId in rooms then rooms[roomId := rooms[roomId].(userCount := count)] else rooms
    }

    /** The tables after `addUserToRoom` stores `user`. */
    function WithUser(user: User): Tables
    {
      var ids := SetAdd(Members(user.roomId), user.id);
      this.(users := users[user.id := user],
            roomUsers := roomUsers[user.roomId := ids],
            rooms := Recounted(user.roomId, |ids|))
    }

    /** The tables after `deleteRoom(id)`. */
    function WithoutRoom(id: string): Tables
    {
      Tables(rooms - {id},
             users - Elems(Members(id)),
             messages - Elems(ListAt(roomMessages, id)),
             roomUsers - {id},
             roomMessages - {id})
    }

    /** `removeUserFromRoom` up to its emptiness test: record gone, id out of the set, count refreshed. */
    function Detached(userId: string, roomId: string): Tables
      requires roomId in roomUsers
    {
      var rest := RemoveFirst(roomUsers[roomId], userId);
      this.(users := users - {userId},
            roomUsers := roomUsers[roomId := rest],
            rooms := Recounted(roomId, |rest|))
    }

    /** The tables after `removeUserFromRoom(userId, roomId)`: the room goes once its set is empty. */
    function WithoutUser(userId: string, roomId: string): Tables
    {
      if roomId !in roomUsers then this.(users := users - {userId})
      else
        var t := Detached(userId, roomId);
        if |t.roomUsers[roomId]| == 0 then t.WithoutRoom(roomId) else t
    }

    /** The tables after `addMessage` stores `m`. */
    function WithMessage(m: Message): Tables
    {
      this.(messages := messages[m.id := m],
            roomMessages := roomMessages[m.roomId := ListAt(roomMessages, m.roomId) + [m.id]])
    }
  }

  /** Every id a room lists resolves to a stored message of that room, one per id, in list order. */
  lemma HistoryIsComplete(t: Tables, roomId: string)
    requires t.Valid()
    ensures |t.History(roomId)| == |ListAt(t.roomMessages, roomId)|
    ensures forall i :: 0 <= i < |t.History(roomId)| ==>
              t.History(roomId)[i].id == ListAt(t.roomMessages, roomId)[i] && t.History(roomId)[i].roomId == roomId
  {
    PresentAll(ListAt(t.roomMessages, roomId), t.messages);
  }

  /** With ordered lists, every room's history is in time order. */
  lemma HistoryInTimeOrder(t: Tables, roomId: string)
    requires t.Valid() && t.Ordered()
    ensures TimeOrdered(t.History(roomId))
  {
    var ids := ListAt(t.roomMessages, roomId);
    PresentAll(ids, t.messages);
    forall i | 0 < i < |ids| ensures t.History(roomId)[i - 1].timestamp <= t.History(roomId)[i].timestamp {
      assert ids[i - 1] in ids && ids[i] in ids;
    }
  }

  // Single-concern preservation steps.

  lemma SetsDistinctPut(roomUsers: map<string, seq<string>>, k: string, s: seq<string>)
    requires SetsDistinct(roomUsers) && NoDup(s)
    ensures SetsDistinct(roomUsers[k := s])
  {
  }

  lemma ListsStoredClear(roomMessages: map<string, seq<string>>, messages: map<string, Message>, id: string)
    requires ListsStored(roomMessages, messages)
    ensures ListsStored(roomMessages[id := []], messages)
  {
  }

  lemma HistoriesOrderedClear(roomMessages: map<string, seq<string>>, messages: map<string, Message>, id: string)
    requires HistoriesOrdered(roomMessages, messages)
    ensures HistoriesOrdered(roomMessages[id := []], messages)
  {
  }

  /** A member set replaced by `s`; the room, if any, recounts. */
  lemma RoomsIndexedRecount(t: Tables, id: string, s: seq<string>)
    requires RoomsIndexed(t.rooms, t.roomUsers, t.roomMessages)
    ensures RoomsIndexed(t.Recounted(id, |s|), t.roomUsers[id := s], t.roomMessages)
  {
  }

  lemma EmptySetsPut(rooms: map<string, Room>, rooms': map<string, Room>, roomUsers: map<string, seq<string>>,
                     id: string, s: seq<string>)
    requires EmptySetsHaveRooms(rooms, roomUsers, {}) && rooms.Keys == rooms'.Keys
    ensures EmptySetsHaveRooms(rooms', roomUsers[id := s], {id})
    ensures s != [] ==> EmptySetsHaveRooms(rooms', roomUsers[id := s], {})
  {
  }

  /** `createRoom` keeps the invariant and the time order of every list. */
  lemma CreateRoomKeepsValid(t: Tables, room: Room)
    requires t.Valid() && room.userCount == 0
    ensures t.WithRoom(room).Valid()
    ensures t.Ordered() ==> t.WithRoom(room).Ordered()
  {
    SetsDistinctPut(t.roomUsers, room.id, []);
    ListsStoredClear(t.roomMessages, t.messages, room.id);
    if t.Ordered() {
      HistoriesOrderedClear(t.roomMessages, t.messages, room.id);
    }
  }

  /**
   * After `createRoom` the room is stored as given with no members and no messages, even when
   * a room with that id existed before; no other room's members or messages change.
   */
  lemma CreatedRoomIsEmpty(t: Tables, room: Room)
    ensures var t' := t.WithRoom(room);
            && room.id in t'.rooms && t'.rooms[room.id] == room
            && t'.Members(room.id) == [] && t'.History(room.id) == []
            && t'.users == t.users && t'.messages == t.messages
            && forall r :: r != room.id ==> t'.Members(r) == t.Members(r) && t'.History(r) == t.History(r)
  {
  }

  /** `addUserToRoom` keeps the invariant and the time order of every list. */
  lemma AddUserKeepsValid(t: Tables, user: User)
    requires t.Valid()
    ensures t.WithUser(user).Valid()
    ensures t.Ordered() ==> t.WithUser(user).Ordered()
  {
    var ids := SetAdd(t.Members(user.roomId), user.id);
    SetAddKeepsSet(t.Members(user.roomId), user.id);
    SetsDistinctPut(t.roomUsers, user.roomId, ids);
    RoomsIndexedRecount(t, user.roomId, ids);
    EmptySetsPut(t.rooms, t.Recounted(user.roomId, |ids|), t.roomUsers, user.roomId, ids);
  }

  /**
   * After `addUserToRoom` the user is stored and is a member of its room, whose member set
   * grew by that id alone and whose count, if the room exists, is the set's size.
   */
  lemma JoinedUserIsMember(t: Tables, user: User)
    requires t.Valid()
    ensures var t' := t.WithUser(user);
            && user.id in t'.users && t'.users[user.id] == user
            && Elems(t'.Members(user.roomId)) == Elems(t.Members(user.roomId)) + {user.id}
            && |t'.Members(user.roomId)| == |t.Members(user.roomId)| + (if user.id in t.Members(user.roomId) then 0 else 1)
            && (user.roomId in t'.rooms <==> user.roomId in t.rooms)
            && (user.roomId in t'.rooms ==> t'.rooms[user.roomId].userCount == |t'.Members(user.roomId)|)
            && forall r :: r != user.roomId ==> t'.Members(r) == t.Members(r)
  {
    SetAddKeepsSet(t.Members(user.roomId), user.id);
  }

  lemma ListsStoredDelete(roomMessages: map<string, seq<string>>, messages: map<string, Message>, id: string)
    requires ListsStored(roomMessages, messages)
    ensures ListsStored(roomMessages - {id}, messages - Elems(ListAt(roomMessages, id)))
  {
    forall r, k | r in roomMessages - {id} && k in roomMessages[r]
      ensures k !in Elems(ListAt(roomMessages, id))
    {
      assert messages[k].roomId == r;
    }
  }

  lemma HistoriesOrderedDelete(roomMessages: map<string, seq<string>>, messages: map<string, Message>,
                               id: string, gone: set<string>)
    requires HistoriesOrdered(roomMessages, messages)
    ensures HistoriesOrdered(roomMessages - {id}, messages - gone)
  {
  }

  /** `deleteRoom` restores the invariant, with no exemption left, and keeps every list in time order. */
  lemma DeleteRoomKeepsValid(t: Tables, id: string)
    requires t.Coherent() && EmptySetsHaveRooms(t.rooms, t.roomUsers, {id})
    ensures t.WithoutRoom(id).Valid()
    ensures t.Ordered() ==> t.WithoutRoom(id).Ordered()
  {
    ListsStoredDelete(t.roomMessages, t.messages, id);
    if t.Ordered() {
      HistoriesOrderedDelete(t.roomMessages, t.messages, id, Elems(ListAt(t.roomMessages, id)));
    }
  }

  /**
   * After `deleteRoom` the room, its member set and its message list are gone, and so are the
   * users and messages they listed; every other room reads the same members and history.
   */
  lemma DeletedRoomIsGone(t: Tables, id: string)
    requires t.Coherent()
    ensures var t' := t.WithoutRoom(id);
            && id !in t'.rooms && id !in t'.roomUsers && id !in t'.roomMessages
            && (forall k :: k in t.Members(id) ==> k !in t'.users)
            && (forall k :: k in ListAt(t.roomMessages, id) ==> k !in t'.messages)
            && t'.History(id) == []
            && forall r :: r != id ==> t'.Members(r) == t.Members(r) && t'.History(r) == t.History(r)
  {
    var t' := t.WithoutRoom(id);
    var gone := Elems(ListAt(t.roomMessages, id));
    forall r | r != id ensures t'.History(r) == t.History(r) {
      if r in t.roomMessages {
        forall k | k in t.roomMessages[r] ensures k !in gone {
          assert t.messages[k].roomId == r;
        }
      }
      PresentUnaffected(ListAt(t.roomMessages, r), t'.messages, t.messages);
    }
  }

  /** Deleting an absent room changes nothing, so deleting the same room twice is deleting it once. */
  lemma DeleteRoomIdempotent(t: Tables, id: string)
    ensures id !in t.rooms && id !in t.roomUsers && id !in t.roomMessages ==> t.WithoutRoom(id) == t
    ensures t.WithoutRoom(id).WithoutRoom(id) == t.WithoutRoom(id)
  {
    var t' := t.WithoutRoom(id);
    assert t'.Members(id) == [] && ListAt(t'.roomMessages, id) == [];
    ElemsEmpty<string>([]);
    if id !in t.roomUsers && id !in t.roomMessages {
      assert t.Members(id) == [] && ListAt(t.roomMessages, id) == [];
    }
  }

  /** The state `removeUserFromRoom` reaches before it decides whether to delete the room. */
  lemma DetachKeepsCoherent(t: Tables, userId: string, roomId: string)
    requires t.Valid() && roomId in t.roomUsers
    ensures var t' := t.Detached(userId, roomId);
            && t'.Coherent() && EmptySetsHaveRooms(t'.rooms, t'.roomUsers, {roomId})
            && (t'.roomUsers[roomId] != [] ==> t'.Valid())
            && (t.Ordered() ==> t'.Ordered())
  {
    var rest := RemoveFirst(t.roomUsers[roomId], userId);
    RemoveFirstKeepsSet(t.roomUsers[roomId], userId);
    SetsDistinctPut(t.roomUsers, roomId, rest);
    RoomsIndexedRecount(t, roomId, rest);
    EmptySetsPut(t.rooms, t.Recounted(roomId, |rest|), t.roomUsers, roomId, rest);
  }

  /** `removeUserFromRoom` keeps the invariant and the time order of every list. */
  lemma RemoveUserKeepsValid(t: Tables, userId: string, roomId: string)
    requires t.Valid()
    ensures t.WithoutUser(userId, roomId).Valid()
    ensures t.Ordered() ==> t.WithoutUser(userId, roomId).Ordered()
  {
    if roomId in t.roomUsers {
      DetachKeepsCoherent(t, userId, roomId);
      if |t.Detached(userId, roomId).roomUsers[roomId]| == 0 {
        DeleteRoomKeepsValid(t.Detached(userId, roomId), roomId);
      }
    }
  }

  /** After `removeUserFromRoom` the user record is gone and the id is no longer a member of the room. */
  lemma LeftUserIsGone(t: Tables, userId: string, roomId: string)
    requires t.Valid()
    ensures var t' := t.WithoutUser(userId, roomId);
            && userId !in t'.users
            && Elems(t'.Members(roomId)) == Elems(t.Members(roomId)) - {userId}
  {
    if roomId in t.roomUsers {
      RemoveFirstKeepsSet(t.roomUsers[roomId], userId);
    }
  }

  /**
   * `removeUserFromRoom` deletes the room exactly when the departure leaves its member set
   * empty; a room that stays keeps a count equal to its set's size. A room without a member
   * set is left alone.
   */
  lemma EmptiedRoomIsDeleted(t: Tables, userId: string, roomId: string)
    requires t.Valid()
    ensures var t' := t.WithoutUser(userId, roomId);
            && (roomId in t'.rooms <==> roomId in t.rooms && Elems(t.Members(roomId)) - {userId} != {})
            && (roomId in t'.rooms ==> t'.rooms[roomId].userCount == |t'.Members(roomId)|)
            && (roomId !in t.roomUsers ==> t'.rooms == t.rooms && t'.roomUsers == t.roomUsers)
  {
    if roomId in t.roomUsers {
      var rest := RemoveFirst(t.roomUsers[roomId], userId);
      RemoveFirstKeepsSet(t.roomUsers[roomId], userId);
      ElemsEmpty(rest);
    }
  }

  /**
   * Joining a room that already has members and then leaving it gives back the tables as they
   * were, provided the user id was unused.
   */
  lemma JoinThenLeave(t: Tables, user: User)
    requires t.Valid() && t.UnusedUserId(user.id)
    requires user.roomId in t.rooms && t.Members(user.roomId) != []
    ensures t.WithUser(user).WithoutUser(user.id, user.roomId) == t
  {
    var ids := t.Members(user.roomId);
    var joined := t.WithUser(user);
    assert joined.roomUsers[user.roomId] == ids + [user.id];
    RemoveFirstUndoesAppend(ids, user.id);
    var left := joined.Detached(user.id, user.roomId);
    assert left.users == t.users by {
      assert t.users[user.id := user] - {user.id} == t.users;
    }
    assert left.roomUsers == t.roomUsers;
    assert left.rooms == t.rooms;
  }

  lemma ListsStoredAppend(roomMessages: map<string, seq<string>>, messages: map<string, Message>, m: Message)
    requires ListsStored(roomMessages, messages) && m.id !in messages
    ensures ListsStored(roomMessages[m.roomId := ListAt(roomMessages, m.roomId) + [m.id]], messages[m.id := m])
  {
  }

  lemma HistoriesOrderedAppend(roomMessages: map<string, seq<string>>, messages: map<string, Message>, m: Message)
    requires HistoriesOrdered(roomMessages, messages) && ListsStored(roomMessages, messages)
    requires m.id !in messages
    requires forall k :: k in messages ==> messages[k].timestamp <= m.timestamp
    ensures HistoriesOrdered(roomMessages[m.roomId := ListAt(roomMessages, m.roomId) + [m.id]], messages[m.id := m])
  {
    var rm := roomMessages[m.roomId := ListAt(roomMessages, m.roomId) + [m.id]];
    var ms := messages[m.id := m];
    forall r, i | r in rm && 0 < i < |rm[r]| && rm[r][i - 1] in ms && rm[r][i] in ms
      ensures ms[rm[r][i - 1]].timestamp <= ms[rm[r][i]].timestamp
    {
      if r == m.roomId && i == |rm[r]| - 1 {
        var ids := ListAt(roomMessages, m.roomId);
        assert rm[r][i - 1] == ids[i - 1] && ids[i - 1] in ids;
      } else if r == m.roomId {
        var ids := roomMessages[r];
        assert rm[r][i - 1] == ids[i - 1] && rm[r][i] == ids[i];
        assert ids[i - 1] in ids && ids[i] in ids;
      } else {
        assert rm[r][i - 1] in roomMessages[r] && rm[r][i] in roomMessages[r];
      }
    }
  }

  /**
   * `addMessage` with a fresh id keeps the invariant, and keeps every list in time order
   * when no stored message is stamped later than the new one.
   */
  lemma AddMessageKeepsValid(t: Tables, m: Message)
    requires t.Valid() && m.id !in t.messages
    ensures t.WithMessage(m).Valid()
    ensures t.Ordered() && t.StampedBy(m.timestamp) ==> t.WithMessage(m).Ordered()
  {
    ListsStoredAppend(t.roomMessages, t.messages, m);
    if t.Ordered() && t.StampedBy(m.timestamp) {
      HistoriesOrderedAppend(t.roomMessages, t.messages, m);
    }
  }

  /** After `addMessage` the room's history has gained the message at its end and nothing else changed. */
  lemma PostedMessageIsLast(t: Tables, m: Message)
    requires t.Valid() && m.id !in t.messages
    ensures t.WithMessage(m).History(m.roomId) == t.History(m.roomId) + [m]
    ensures forall r :: r != m.roomId ==> t.WithMessage(m).History(r) == t.History(r)
  {
    var t' := t.WithMessage(m);
    forall r ensures Present(ListAt(t.roomMessages, r), t'.messages) == t.History(r) {
      var ids := ListAt(t.roomMessages, r);
      assert forall k :: k in ids ==> k in t.messages && k != m.id;
      PresentUnaffected(ids, t'.messages, t.messages);
    }
    forall r | r != m.roomId ensures t'.History(r) == t.History(r) {
      assert ListAt(t'.roomMessages, r) == ListAt(t.roomMessages, r);
    }
    var ids := ListAt(t.roomMessages, m.roomId);
    assert ListAt(t'.roomMessages, m.roomId) == ids + [m.id];
    PresentAppend(ids, m.id, t'.messages);
  }

  /** `forEach(id => map.delete(id))`. */
  method DeleteAll<V>(m: map<string, V>, ids: seq<string>) returns (r: map<string, V>)
    ensures r == m - Elems(ids)
  {
    r := m;
    var i := 0;
    while i < |ids|
      invariant 0 <= i <= |ids|
      invariant r == m - Elems(ids[..i])
    {
      assert Elems(ids[..i + 1]) == Elems(ids[..i]) + {ids[i]} by {
        assert ids[..i + 1] == ids[..i] + [ids[i]];
      }
      r := r - {ids[i]};
      i := i + 1;
    }
    assert ids[..i] == ids;
  }

  class MemStorage {
    var rooms: map<string, Room>
    var users: map<string, User>
    var messages: map<string, Message>
    /** Room id to member ids: each a `Set`, kept as its insertion order. */
    var roomUsers: map<string, seq<string>>
    /** Room id to message ids, in the order `addMessage` pushed them. */
    var roomMessages: map<string, seq<string>>

    function View(): Tables
      reads this
    {
      Tables(rooms, users, messages, roomUsers, roomMessages)
    }

    ghost predicate Valid()
      reads this
    {
      View().Valid()
    }

    constructor ()
      ensures Valid() && View().Ordered()
      ensures View() == Tables(map[], map[], map[], map[], map[])
    {
      rooms, users, messages := map[], map[], map[];
      roomUsers, roomMessages := map[], map[];
    }

    /** `createRoom`: a new room with no members and no messages; an existing one with this id is overwritten. */
    method CreateRoom(insert: InsertRoom, now: Timestamp) returns (room: Room)
      requires Valid()
      modifies this
      ensures room == Room(insert.id, now, 0)
      ensures View() == old(View()).WithRoom(room)
      ensures Valid() && (old(View().Ordered()) ==> View().Ordered())
    {
      room := Room(insert.id, now, 0);
      CreateRoomKeepsValid(View(), room);
      rooms := rooms[room.id := room];
      roomUsers := roomUsers[room.id := []];
      roomMessages := roomMessages[room.id := []];
    }

    /** `getRoom`. */
    function GetRoom(id: string): (r: Option<Room>)
      reads this
      requires Valid()
      ensures r.Some? <==> id in rooms
      ensures r.Some? ==> r.value == rooms[id] && r.value.id == id && r.value.userCount == |View().Members(id)|
    {
      if id in rooms then Some(rooms[id]) else None
    }

    /** `getRoomUserCount`: the size of the member set, 0 when there is none. */
    function GetRoomUserCount(roomId: string): (n: nat)
      reads this
      requires Valid()
      ensures n == |View().Members(roomId)|
      ensures roomId in rooms ==> n == rooms[roomId].userCount
      ensures roomId !in roomUsers ==> n == 0
    {
      if roomId in roomUsers then |roomUsers[roomId]| else 0
    }

    /** `getUser`. */
    function GetUser(id: string): (r: Option<User>)
      reads this
      requires Valid()
      ensures r.Some? <==> id in users
      ensures r.Some? ==> r.value == users[id] && r.value.id == id
    {
      if id in users then Some(users[id]) else None
    }

    /**
     * `deleteRoom`: the room, every user in its member set, every message in its list and both
     * index entries go; nothing else changes. Deleting an absent room changes nothing.
     */
    method DeleteRoom(id: string)
      requires View().Coherent() && EmptySetsHaveRooms(rooms, roomUsers, {id})
      modifies this
      ensures View() == old(View()).WithoutRoom(id)
      ensures Valid() && (old(View().Ordered()) ==> View().Ordered())
    {
      ghost var before := View();
      rooms := rooms - {id};
      var userIds := ListAt(roomUsers, id);
      users := DeleteAll(users, userIds);
      roomUsers := roomUsers - {id};
      var messageIds := ListAt(roomMessages, id);
      messages := DeleteAll(messages, messageIds);
      roomMessages := roomMessages - {id};
      DeleteRoomKeepsValid(before, id);
    }

    /**
     * `addUserToRoom`: the user is stored with its join time and added to the room's member set
     * (created if missing); the room's count, if the room exists, becomes the set's size.
     * An absent room is not an error.
     */
    method AddUserToRoom(insert: InsertUser, now: Timestamp) returns (user: User)
      requires Valid()
      modifies this
      ensures user == User(insert.id, insert.name, insert.roomId, now)
      ensures View() == old(View()).WithUser(user)
      ensures Valid() && (old(View().Ordered()) ==> View().Ordered())
    {
      ghost var before := View();
      user := User(insert.id, insert.name, insert.roomId, now);
      users := users[user.id := user];
      var roomUserIds := ListAt(roomUsers, user.roomId);
      roomUserIds := SetAdd(roomUserIds, user.id);
      roomUsers := roomUsers[user.roomId := roomUserIds];
      if user.roomId in rooms {
        rooms := rooms[user.roomId := rooms[user.roomId].(userCount := |roomUserIds|)];
      }
      AddUserKeepsValid(before, user);
    }

    /**
     * `removeUserFromRoom`: the user record always goes. If the room has a member set, the id
     * leaves it, the room's count is refreshed, and a set left empty deletes the room (even
     * when the user was never a member).
     */
    method RemoveUserFromRoom(userId: string, roomId: string)
      requires Valid()
      modifies this
      ensures View() == old(View()).WithoutUser(userId, roomId)
      ensures Valid() && (old(View().Ordered()) ==> View().Ordered())
    {
      ghost var before := View();
      users := users - {userId};
      if roomId in roomUsers {
        var roomUserIds := RemoveFirst(roomUsers[roomId], userId);
        ghost var recounted := before.Recounted(roomId, |roomUserIds|);
        roomUsers := roomUsers[roomId := roomUserIds];
        if roomId in rooms {
          rooms := rooms[roomId := rooms[roomId].(userCount := |roomUserIds|)];
        }
        assert View() == before.Detached(userId, roomId) by {
          assert rooms == recounted;
        }
        DetachKeepsCoherent(before, userId, roomId);
        if |roomUserIds| == 0 {
          DeleteRoom(roomId);
        }
      }
      RemoveUserKeepsValid(before, userId, roomId);
    }

    /** `getUsersInRoom`: the members that have a user record, in join order; none for an unknown room. */
    method GetUsersInRoom(roomId: string) returns (r: seq<User>)
      requires Valid()
      ensures r == Present(View().Members(roomId), users)
      ensures roomId !in roomUsers ==> r == []
      ensures forall u :: u in r ==> u.id in View().Members(roomId) && u.id in users && users[u.id] == u
      ensures forall k :: k in View().Members(roomId) && k in users ==> users[k] in r
    {
      var userIds := ListAt(roomUsers, roomId);
      r := [];
      var i := 0;
      while i < |userIds|
        invariant 0 <= i <= |userIds|
        invariant r == Present(userIds[..i], users)
      {
        PresentAppend(userIds[..i], userIds[i], users);
        assert userIds[..i + 1] == userIds[..i] + [userIds[i]];
        var user := if userIds[i] in users then Some(users[userIds[i]]) else None;
        if user.Some? {
          r := r + [user.value];
        }
        i := i + 1;
      }
      assert userIds[..i] == userIds;
      PresentMembers(userIds, users);
    }

    /**
     * `addMessage`: the message is stored under the fresh id with the current time, and its id
     * is pushed onto the end of its room's list (created if missing). An absent room is not an error.
     */
    method AddMessage(insert: InsertMessage, id: string, now: Timestamp) returns (message: Message)
      requires Valid()
      requires id !in messages
      modifies this
      ensures message == Message(id, insert.content, insert.authorId, insert.authorName, insert.roomId, now)
      ensures View() == old(View()).WithMessage(message)
      ensures Valid()
      ensures old(View().Ordered()) && old(View().StampedBy(now)) ==> View().Ordered()
    {
      ghost var before := View();
      message := Message(id, insert.content, insert.authorId, insert.authorName, insert.roomId, now);
      messages := messages[id := message];
      var messageIds := ListAt(roomMessages, message.roomId);
      roomMessages := roomMessages[message.roomId := messageIds + [id]];
      AddMessageKeepsValid(before, message);
    }

    /**
     * `getMessagesInRoom`: the room's stored messages, sorted by timestamp with ties in
     * insertion order; empty for an unknown room.
     */
    method GetMessagesInRoom(roomId: string) returns (r: seq<Message>)
      requires Valid()
      ensures r == SortByTime(View().History(roomId))
      ensures TimeOrdered(r)
      ensures roomId !in roomMessages ==> r == []
      ensures View().Ordered() ==> r == View().History(roomId)
    {
      var messageIds := ListAt(roomMessages, roomId);
      var found := [];
      var i := 0;
      while i < |messageIds|
        invariant 0 <= i <= |messageIds|
        invariant found == Present(messageIds[..i], messages)
      {
        PresentAppend(messageIds[..i], messageIds[i], messages);
        assert messageIds[..i + 1] == messageIds[..i] + [messageIds[i]];
        var message := if messageIds[i] in messages then Some(messages[messageIds[i]]) else None;
        if message.Some? {
          found := found + [message.value];
        }
        i := i + 1;
      }
      assert messageIds[..i] == messageIds;
      r := SortByTime(found);
      if View().Ordered() {
        HistoryInTimeOrder(View(), roomId);
        SortByTimeKeepsOrdered(found);
      }
    }
  }
}
