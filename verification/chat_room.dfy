/**
 * The chat page (`ChatRoom`): how it colours and labels authors, and how the frames it receives
 * from the socket update its message list, member list and room.
 */
module ChatRoom {
  import opened Schema
  import opened Text
  import opened Protocol
  import Routes

  // ---------------------------------------------------------------------------------------
  // Avatar colours

  const AvatarColors: seq<string> := ["avatar-blue", "avatar-green", "avatar-orange", "avatar-purple",
                                      "avatar-red", "avatar-indigo", "avatar-pink", "avatar-teal"]

  /** The UTF-16 code units of one character: itself below U+10000, otherwise its surrogate pair. */
  function CodeUnits(c: char): seq<nat>
  {
    var v := c as int;
    if v < 0x1_0000 then [v]
    else [0xD800 + (v - 0x1_0000) / 0x400, 0xDC00 + (v - 0x1_0000) % 0x400]
  }

  /** `s.split('')`, read through `charCodeAt(0)`: the string's UTF-16 code units. */
  function Utf16(s: string): seq<nat>
  {
    if s == [] then [] else Utf16(s[..|s| - 1]) + CodeUnits(s[|s| - 1])
  }

  /** `reduce((acc, x) => acc + x, 0)`. */
  function Sum(xs: seq<nat>): nat
  {
    if xs == [] then 0 else Sum(xs[..|xs| - 1]) + xs[|xs| - 1]
  }

  /** `getUserAvatarColor`. */
  function AvatarColor(userId: string): (color: string)
    ensures color in AvatarColors
  {
    AvatarColors[Sum(Utf16(userId)) % |AvatarColors|]
  }

  lemma {:induction false} SumAppend(a: seq<nat>, b: seq<nat>)
    ensures Sum(a + b) == Sum(a) + Sum(b)
    decreases |b|
  {
    if b == [] {
      assert a + b == a;
    } else {
      assert (a + b)[..|a + b| - 1] == a + b[..|b| - 1];
      SumAppend(a, b[..|b| - 1]);
    }
  }

  lemma {:induction false} Utf16Append(a: string, b: string)
    ensures Utf16(a + b) == Utf16(a) + Utf16(b)
    decreases |b|
  {
    if b == [] {
      assert a + b == a;
    } else {
      assert (a + b)[..|a + b| - 1] == a + b[..|b| - 1];
      Utf16Append(a, b[..|b| - 1]);
    }
  }

  /** A character outside the Basic Multilingual Plane contributes both halves of its surrogate pair. */
  lemma {:induction false} Utf16Length(s: string)
    ensures |Utf16(s)| >= |s|
    ensures (forall i :: 0 <= i < |s| ==> s[i] as int < 0x1_0000) ==> Utf16(s) == seq(|s|, i requires 0 <= i < |s| => s[i] as int)
  {
    if s != [] {
      Utf16Length(s[..|s| - 1]);
    }
  }

  /**
   * `slice(0, n)` counts UTF-16 code units; `Take` counts characters. The two agree whenever the
   * characters taken lie below U+10000.
   */
  lemma SliceAgreesOnBmp(s: string, n: nat)
    requires forall i :: 0 <= i < |Take(s, n)| ==> s[i] as int < 0x1_0000
    ensures Utf16(Take(s, n)) == Utf16(s)[..if n < |Utf16(s)| then n else |Utf16(s)|]
  {
    var p := Take(s, n);
    var q := s[|p|..];
    assert s == p + q;
    Utf16Append(p, q);
    Utf16Length(p);
    Utf16Length(s);
    assert |Utf16(p)| == |p|;
    if n < |s| {
      assert Utf16(s)[..n] == Utf16(p);
    } else {
      assert p == s;
    }
  }

  /** The code-unit sum of a concatenation is the sum of the parts' sums. */
  lemma CodeUnitSumAppend(a: string, b: string)
    ensures Sum(Utf16(a + b)) == Sum(Utf16(a)) + Sum(Utf16(b))
  {
    Utf16Append(a, b);
    SumAppend(Utf16(a), Utf16(b));
  }

  /** Cutting out one position removes one copy of its element. */
  lemma MultisetCut(y: string, j: nat)
    requires j < |y|
    ensures multiset(y[..j] + y[j + 1..]) == multiset(y) - multiset{y[j]}
  {
    assert y == y[..j] + [y[j]] + y[j + 1..];
    assert multiset(y) == multiset(y[..j]) + multiset{y[j]} + multiset(y[j + 1..]);
  }

  /** Cutting out one character takes its own code units out of the sum. */
  lemma CodeUnitSumCut(y: string, j: nat)
    requires j < |y|
    ensures Sum(Utf16(y)) == Sum(Utf16(y[..j] + y[j + 1..])) + Sum(Utf16([y[j]]))
  {
    var front, back := y[..j], y[j + 1..];
    assert y == front + [y[j]] + back;
    CodeUnitSumAppend(front + [y[j]], back);
    CodeUnitSumAppend(front, [y[j]]);
    CodeUnitSumAppend(front, back);
  }

  /** Two ids holding the same characters, in any order, have the same code-unit sum. */
  lemma {:induction false} CodeUnitSumPermutes(x: string, y: string)
    requires multiset(x) == multiset(y)
    ensures Sum(Utf16(x)) == Sum(Utf16(y))
    decreases |x|
  {
    if x == [] {
      assert |y| == |multiset(y)| == 0;
    } else {
      var n := |x| - 1;
      assert x[n] in multiset(x);
      var j :| 0 <= j < |y| && y[j] == x[n];
      MultisetCut(x, n);
      MultisetCut(y, j);
      CodeUnitSumPermutes(x[..n] + x[n + 1..], y[..j] + y[j + 1..]);
      CodeUnitSumCut(x, n);
      CodeUnitSumCut(y, j);
    }
  }

  /** The colour depends only on which characters the id holds, not on their order. */
  lemma AvatarColorIgnoresOrder(a: string, b: string)
    requires multiset(a) == multiset(b)
    ensures AvatarColor(a) == AvatarColor(b)
  {
    CodeUnitSumPermutes(a, b);
  }

  // ---------------------------------------------------------------------------------------
  // Initials

  /** `getUserInitials`. */
  function Initials(name: string): string
  {
    if name == "You" then "You"
    else if name == "System" then "S"
    else if Routes.GuestPrefix <= name then Take(ReplaceFirst(name, Routes.GuestPrefix, "G"), 2)
    else ToUpper(Take(name, 2))
  }

  /**
   * Only "You" is labelled "You"; every other label has at most two characters, is empty only
   * for the empty name, and, outside "You" and guest names, has no lower-case ASCII letter.
   */
  lemma InitialsShape(name: string)
    ensures Initials(name) == "You" <==> name == "You"
    ensures name != "You" ==> |Initials(name)| <= 2
    ensures Initials(name) == [] <==> name == []
    ensures name != "You" && !(Routes.GuestPrefix <= name) ==> forall i :: 0 <= i < |Initials(name)| ==> !('a' <= Initials(name)[i] <= 'z')
    ensures Initials("System") == "S"
    ensures name != "You" && name != "System" && !(Routes.GuestPrefix <= name) ==>
              |Initials(name)| == (if |name| < 2 then |name| else 2)
              && forall i :: 0 <= i < |Initials(name)| ==> Initials(name)[i] == UpperChar(name[i])
  {
    if name != "You" && name != "System" {
      if Routes.GuestPrefix <= name {
        ReplaceFirstAtStart(name, Routes.GuestPrefix, "G");
      } else {
        var r := ToUpper(Take(name, 2));
        forall i | 0 <= i < |r| ensures !('a' <= r[i] <= 'z') {
          assert r[i] == UpperChar(Take(name, 2)[i]);
        }
        assert Initials(name) == r;
      }
    }
  }

  /** A guest name is labelled "G" and the first character after the prefix, if there is one. */
  lemma GuestInitials(rest: string)
    ensures Initials(Routes.GuestPrefix + rest) == "G" + Take(rest, 1)
  {
    var name := Routes.GuestPrefix + rest;
    assert name[0] == 'G' && |name| >= 6;
    assert name[..6] == Routes.GuestPrefix;
    ReplaceFirstAtStart(name, Routes.GuestPrefix, "G");
    assert name[6..] == rest;
    if rest == [] {
      assert Take("G" + rest, 2) == "G";
    } else {
      assert Take("G" + rest, 2) == "G" + [rest[0]] == "G" + Take(rest, 1);
    }
  }

  /** Every name the server generates is labelled "G" and a digit from 1 to 9. */
  lemma ServerGuestInitials(draw: nat)
    requires draw < 9000
    ensures var initials := Initials(Routes.GenerateGuestName(draw));
            |initials| == 2 && initials[0] == 'G' && '1' <= initials[1] <= '9'
  {
    var name := Routes.GenerateGuestName(draw);
    assert name == Routes.GuestPrefix + name[6..];
    GuestInitials(name[6..]);
  }

  // ---------------------------------------------------------------------------------------
  // The page state and the socket event handlers

  /** `prev.filter(user => user.id !== userId)`. */
  function WithoutUser(users: seq<User>, userId: string): (r: seq<User>)
    ensures |r| <= |users|
    ensures forall u :: u in r <==> u in users && u.id != userId
  {
    if users == [] then []
    else
      var last := users[|users| - 1];
      WithoutUser(users[..|users| - 1], userId) + if last.id != userId then [last] else []
  }

  lemma {:induction false} WithoutUserAppend(a: seq<User>, b: seq<User>, userId: string)
    ensures WithoutUser(a + b, userId) == WithoutUser(a, userId) + WithoutUser(b, userId)
    decreases |b|
  {
    if b == [] {
      assert a + b == a;
    } else {
      assert (a + b)[..|a + b| - 1] == a + b[..|b| - 1];
      WithoutUserAppend(a, b[..|b| - 1], userId);
    }
  }

  /** A list with nobody under the id comes back unchanged. */
  lemma {:induction false} WithoutAbsentUser(users: seq<User>, userId: string)
    requires forall u :: u in users ==> u.id != userId
    ensures WithoutUser(users, userId) == users
  {
    if users != [] {
      WithoutAbsentUser(users[..|users| - 1], userId);
      assert users == users[..|users| - 1] + [users[|users| - 1]];
    }
  }

  /** Filtering out a member who was just appended gives back the list before the append. */
  lemma WithoutUserUndoesAppend(users: seq<User>, user: User)
    requires forall u :: u in users ==> u.id != user.id
    ensures WithoutUser(users + [user], user.id) == users
  {
    WithoutUserAppend(users, [user], user.id);
    WithoutAbsentUser(users, user.id);
    assert WithoutUser([user], user.id) == [] by {
      assert [user][..0] == [];
    }
    assert users + [] == users;
  }

  /** `setRoom(prev => prev ? { ...prev, userCount } : null)`. */
  function Recount(room: Option<Room>, userCount: nat): Option<Room>
  {
    if room.Some? then Some(room.value.(userCount := userCount)) else None
  }

  /** The page's state variables. */
  datatype Page = Page(
    messages: seq<Message>,
    users: seq<User>,
    currentUser: Option<User>,
    room: Option<Room>,
    messageInput: string,
    isConnecting: bool,
    error: string,
    isConnected: bool)

  /** The page after the listener registered for the frame's type has run. */
  function Received(p: Page, frame: ServerFrame): Page
  {
    match frame
    case JoinedRoom(user, room) => p.(currentUser := Some(user), room := room, isConnecting := false)
    case MessagesHistory(messages) => p.(messages := messages)
    case UsersList(users) => p.(users := users)
    case NewMessage(message) => p.(messages := p.messages + [message])
    case UserJoined(user, message, userCount) =>
      p.(users := p.users + [user], messages := p.messages + [message], room := Recount(p.room, userCount))
    case UserLeft(userId, message, userCount) =>
      p.(users := WithoutUser(p.users, userId), messages := p.messages + [message], room := Recount(p.room, userCount))
    case Error(reason) => p.(error := reason, isConnecting := false)
  }

  /**
   * `user_left` drops every member under the id and keeps every other one (in their old order,
   * as `WithoutUserAppend` and `WithoutAbsentUser` show for the filter), appends exactly its
   * message, and refreshes the count of a room the page has, without inventing one.
   */
  lemma UserLeftDropsMember(p: Page, userId: string, message: Message, userCount: nat)
    ensures var q := Received(p, UserLeft(userId, message, userCount));
            && (forall u :: u in q.users <==> u in p.users && u.id != userId)
            && q.messages == p.messages + [message]
            && (q.room.Some? <==> p.room.Some?)
            && (q.room.Some? ==> q.room.value == p.room.value.(userCount := userCount))
  {
  }

  /** A member who joins and then leaves leaves the member list as it was; both notices stay. */
  lemma JoinThenLeaveRestoresMembers(p: Page, user: User, joined: Message, left: Message, c1: nat, c2: nat)
    requires forall u :: u in p.users ==> u.id != user.id
    ensures var q := Received(Received(p, UserJoined(user, joined, c1)), UserLeft(user.id, left, c2));
            q.users == p.users && q.messages == p.messages + [joined, left]
  {
    WithoutUserUndoesAppend(p.users, user);
  }

  /** Without a room, no frame but `joined_room` gives the page one: counts alone never create a room. */
  lemma CountsNeedRoom(p: Page, frame: ServerFrame)
    requires p.room.None? && !frame.JoinedRoom?
    ensures Received(p, frame).room.None?
  {
  }

  /** `handleSendMessage`: the trimmed input, when there is one and the page is connected. */
  function Outgoing(input: string, isConnected: bool): (content: Option<string>)
    ensures content.Some? ==> content.value != [] && content.value == Trim(input)
    ensures content.None? <==> !isConnected || Trim(input) == []
  {
    var trimmed := Trim(input);
    if trimmed == [] || !isConnected then None else Some(trimmed)
  }

  /** What is sent has no whitespace at either end, and padding the input changes nothing. */
  lemma OutgoingIgnoresPadding(w1: string, s: string, w2: string, isConnected: bool)
    requires AllSpace(w1) && AllSpace(w2)
    ensures Outgoing(w1 + s + w2, isConnected) == Outgoing(s, isConnected)
    ensures var c := Outgoing(s, isConnected);
            c.Some? ==> !IsJsSpace(c.value[0]) && !IsJsSpace(c.value[|c.value| - 1])
  {
    TrimIgnoresPadding(w1, s, w2);
  }

  /** The page component: its state variables, updated through their setters. */
  class ChatRoomPage {
    var messages: seq<Message>
    var users: seq<User>
    var currentUser: Option<User>
    var room: Option<Room>
    var messageInput: string
    var isConnecting: bool
    var error: string
    var isConnected: bool

    function View(): Page
      reads this
    {
      Page(messages, users, currentUser, room, messageInput, isConnecting, error, isConnected)
    }

    /** The `useState` initial values. */
    constructor ()
      ensures View() == Page([], [], None, None, "", true, "", false)
    {
      messages, users, currentUser, room := [], [], None, None;
      messageInput, isConnecting, error, isConnected := "", true, "", false;
    }

    /** The listener registered for the frame's type; toasts are not modelled. */
    method OnFrame(frame: ServerFrame)
      modifies this
      ensures View() == Received(old(View()), frame)
    {
      match frame {
        case JoinedRoom(user, joinedRoom) =>
          currentUser := Some(user);
          room := joinedRoom;
          isConnecting := false;
        case MessagesHistory(history) =>
          messages := history;
        case UsersList(members) =>
          users := members;
        case NewMessage(message) =>
          messages := messages + [message];
        case UserJoined(user, message, userCount) =>
          users := users + [user];
          messages := messages + [message];
          room := Recount(room, userCount);
        case UserLeft(userId, message, userCount) =>
          users := WithoutUser(users, userId);
          messages := messages + [message];
          room := Recount(room, userCount);
        case Error(reason) =>
          error := reason;
          isConnecting := false;
      }
    }

    /** The `disconnected` listener. */
    method OnDisconnected()
      modifies this
      ensures View() == old(View()).(isConnected := false)
    {
      isConnected := false;
    }

    /** `handleSendMessage`: the content handed to `chatSocket.sendMessage`, if any; the input clears when sent. */
    method HandleSendMessage() returns (sent: Option<string>)
      modifies this
      ensures sent == Outgoing(old(messageInput), old(isConnected))
      ensures View() == if sent.Some? then old(View()).(messageInput := "") else old(View())
    {
      var content := Trim(messageInput);
      if content == [] || !isConnected {
        return None;
      }
      sent := Some(content);
      messageInput := "";
    }
  }
}
