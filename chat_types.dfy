/** Values exchanged by the chat server: user records, stored messages,
    private messages and the events the server emits. */
module ChatTypes {

  datatype Option<T> = None | Some(value: T)

  type UserId = string
  type SocketId = string
  type Room = string

  /** A reading of the server clock in milliseconds (`Date.now()`).
      The model never interprets it: ids and timestamps are derived from it. */
  type Clock = nat

  /** The configured rooms, in the order the server lists them. */
  const Rooms: seq<Room> := ["general", "random", "tech", "gaming"]

  /** The room every new connection is placed in. */
  const DefaultRoom: Room := "general"

  /** A reaction tally: reaction symbol -> usernames that chose it. */
  type Tally = map<string, seq<string>>

  datatype FileRef = FileRef(fileUrl: string, filename: string)

  /** A stored room message. System messages and file messages carry no
      `reactions` field (None); chat messages start with an empty tally. */
  datatype Message = Message(
    id: string,
    username: string,
    userId: UserId,
    text: string,
    room: Room,
    timestamp: Clock,
    kind: string,
    reactions: Option<Tally>,
    file: Option<FileRef>)

  /** An entry of the online-user registry. */
  datatype User = User(
    id: UserId,
    username: string,
    socketId: SocketId,
    status: string,
    currentRoom: Room,
    lastSeen: Clock)

  /** A typing indicator, keyed by socket id in the server. */
  datatype Typing = Typing(username: string, room: Room)

  /** A private message; it is delivered and never stored. Its `type` field
      is always "private". */
  datatype PrivateMessage = PrivateMessage(
    id: string,
    from: string,
    fromId: UserId,
    to: string,
    toId: UserId,
    text: string,
    timestamp: Clock,
    read: bool)

  /** Who an emission goes to. */
  datatype Target =
    | ToSender                        // socket.emit
    | ToSocket(socketId: SocketId)    // io.to(socketId).emit
    | ToRoom(room: Room)              // io.to(room).emit
    | ToRoomExceptSender(room: Room)  // socket.broadcast.to(room).emit
    | ToAll                           // io.emit
    | ToAllExceptSender               // socket.broadcast.emit

  datatype Payload =
    | MessageBody(message: Message)
    | InitialData(rooms: seq<Room>, users: seq<User>, messages: seq<Message>,
                  currentUserId: UserId, currentUsername: string)
    | Roster(username: string, users: seq<User>)
    | RoomMessages(room: Room, messages: seq<Message>)
    | RoomPresence(username: string, room: Room)
    | Notice(kind: string, username: string, room: Room, preview: string, timestamp: Clock)
    | ReactionTally(messageId: string, reactions: Tally)
    // isOwn == false stands for a copy without the `isOwn` field
    | Private(privateMessage: PrivateMessage, isOwn: bool)
    | Failure(error: string)
    | ReadReceipt(messageId: string, reader: string)
    | ResumeState(users: seq<User>, rooms: seq<Room>, currentRoom: Room, messages: seq<Message>)

  datatype Emission = Emission(target: Target, event: string, payload: Payload)

  /** The character of a decimal digit. */
  function Digit(d: nat): (c: char)
    requires d < 10
    ensures '0' <= c <= '9' && c as int - '0' as int == d
  {
    ('0' as int + d) as char
  }

  /** The number a string of decimal digits denotes, most significant first. */
  function DigitsValue(s: string): nat
  {
    if s == [] then 0 else DigitsValue(s[..|s| - 1]) * 10 + DigitValue(s[|s| - 1])
  }

  /** The value of a decimal digit character (0 for any other character). */
  function DigitValue(c: char): nat
  {
    if '0' <= c <= '9' then c as int - '0' as int else 0
  }

  /** `n.toString()` for a clock reading: its decimal digits, most significant
      first, with no leading zero. */
  function DecimalString(n: nat): (s: string)
    ensures 1 <= |s|
    ensures forall i :: 0 <= i < |s| ==> '0' <= s[i] <= '9'
    ensures DigitsValue(s) == n
    ensures s[0] != '0' || n == 0
    ensures n < 10 <==> |s| == 1
  {
    if n < 10 then [Digit(n)]
    else
      var p := DecimalString(n / 10);
      var s := p + [Digit(n % 10)];
      assert s[..|s| - 1] == p;
      s
  }

  /** A message authored by the server itself (username "System"). */
  function SystemMessage(now: Clock, text: string, room: Room): (m: Message)
  {
    Message(DecimalString(now), "System", "system", text, room, now, "system", None, None)
  }
}
