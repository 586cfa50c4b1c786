/**
  The records that travel between the chat server and its browser clients:
  the registered user, the chat message, and the Socket.IO events that carry
  them. Every server variant and both client pages share these shapes.
 */
module ChatTypes {

  /** The Socket.IO `socket.id` of one connection; opaque to the chat logic. */
  type ConnId = string

  /** A `Date` as the server stamps it; only ever copied, never compared. */
  type Instant = int

  datatype Option<T> = None | Some(value: T)

  /** A registry entry `{ id: socket.id, username }`. */
  datatype User = User(id: ConnId, username: string)

  /** A chat message as built by the server's `message` handler (and, with
      username "System", by the client for join/leave notices). */
  datatype Message = Message(id: string, username: string, text: string, timestamp: Instant, userId: ConnId)

  /** The events the server emits and the clients listen for. */
  datatype Event =
    | MessageHistory(history: seq<Message>)
    | UserJoined(user: User, users: seq<User>)
    | NewMessage(message: Message)
    | UserLeft(user: User, users: seq<User>)
      /** Listened for by app/page.tsx; none of the servers emits it. */
    | UserList(users: seq<User>)

}
