/**
 * The JSON frames exchanged over the `/ws` channel, as a closed set of variants,
 * and the room-identifier format shared by the server's generator and the client's validator.
 */
module Protocol {
  import opened Schema

  /**
   * What the server's `JSON.parse` and `switch (message.type)` see in one inbound frame:
   * text that does not parse, or parses to `null` (reading `.type` of it throws); one of the
   * two known frames; or any other parsed value, whose `type` is something else or absent
   * (`{}`, `42`, `[]`), which matches no case.
   */
  datatype ClientFrame =
    | Unparseable
    | JoinRoom(roomId: string)
    | SendMessage(content: string)
    | OtherType(kind: string)

  /** The frames the server sends. */
  datatype ServerFrame =
    | JoinedRoom(user: User, room: Option<Room>)
    | MessagesHistory(messages: seq<Message>)
    | UsersList(users: seq<User>)
    | NewMessage(message: Message)
    | UserJoined(user: User, message: Message, userCount: nat)
    | UserLeft(userId: string, message: Message, userCount: nat)
    | Error(reason: string)

  /** The `type` discriminator each server frame carries on the wire. */
  function Tag(f: ServerFrame): string
  {
    match f
    case JoinedRoom(_, _) => "joined_room"
    case MessagesHistory(_) => "messages_history"
    case UsersList(_) => "users_list"
    case NewMessage(_) => "new_message"
    case UserJoined(_, _, _) => "user_joined"
    case UserLeft(_, _, _) => "user_left"
    case Error(_) => "error"
  }

  /** The character class `[A-Z0-9]`. */
  predicate IsRoomIdChar(c: char)
  {
    'A' <= c <= 'Z' || '0' <= c <= '9'
  }

  /** Eight characters of `[A-Z0-9]`. */
  predicate IsRoomId(s: string)
  {
    |s| == 8 && forall i :: 0 <= i < |s| ==> IsRoomIdChar(s[i])
  }
}
