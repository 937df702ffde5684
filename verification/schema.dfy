/** The record shapes of shared/schema.ts, as the store keeps them. */
module Schema {

  /** `T | undefined` and `T | null` results. */
  datatype Option<+T> = None | Some(value: T)

  /** An ISO-8601 instant, kept as what `new Date(ts).getTime()` gives: milliseconds since the epoch. */
  type Timestamp = nat

  datatype Room = Room(id: string, createdAt: Timestamp, userCount: nat)

  datatype User = User(id: string, name: string, roomId: string, joinedAt: Timestamp)

  datatype Message = Message(
    id: string,
    content: string,
    authorId: string,
    authorName: string,
    roomId: string,
    timestamp: Timestamp)

  /** The insert shapes: a record without the fields the store fills in. */
  datatype InsertRoom = InsertRoom(id: string)

  datatype InsertUser = InsertUser(id: string, name: string, roomId: string)

  datatype InsertMessage = InsertMessage(content: string, authorId: string, authorName: string, roomId: string)
}
