/**
 * Values shared by the chat server model: message records, users, the
 * events the server emits, and the parsed form of a disappear setting.
 */
module ChatTypes {

  datatype Option<+T> = None | Some(value: T)

  /** Message ids. The server derives them from the clock and a random
      number; here they are handed out by a counter, so they are unique. */
  type Id = nat

  /** socket.io connection ids. */
  type SocketId = string

  /** A JavaScript number as far as the timers care: an integer or NaN
      (what parseInt and numeric coercion give for non-numbers). */
  datatype JsNumber = Num(value: int) | NaN

  /** The stored `disappearTime` after the `|| null` default: falsy values
      become NoTimer, a "read_N" string arms only once the message is read,
      anything else is a delay counted from the send time. */
  datatype Disappear = NoTimer | Fixed(secs: JsNumber) | AfterRead(secs: JsNumber)

  /** The kind-specific part of a message record. */
  datatype Payload =
    | TextBody(replyTo: Option<string>)
    | ImageBody(imageData: string, imageName: string)
    | VoiceBody(voiceData: string, duration: int)

  /** A message record as the server keeps it in `messages`. `text` is
      separate from the payload because an edit sets it on any kind. */
  datatype Message = Message(
    id: Id,
    username: string,
    userId: SocketId,
    timestamp: int,
    text: Option<string>,
    payload: Payload,
    delivered: bool,
    read: bool,
    readAt: Option<int>,
    edited: bool,
    editedAt: Option<int>,
    deleted: bool,
    deletedAt: Option<int>,
    disappearing: bool,
    disappear: Disappear)

  /** The record `users` maps a socket id to. */
  datatype User = User(id: SocketId, username: string, chatPartner: Option<string>,
                       online: bool, lastSeen: int)

  datatype JoinRefusal = InvalidUser | RoomFull

  /** What the server emits, to everyone (io.emit) or to one socket. */
  datatype Event =
    | MessageReceived(msg: Message)
    | StatusDelivered(id: Id)
    | ReadUpdate(ids: seq<Id>)
    | MessageEdited(id: Id, newText: string, editedAt: int)
    | MessageDeleted(id: Id)
    | MessageDisappeared(id: Id)
    | ChatCleared
    | UserListUpdate(users: set<User>)
    | LoadMessages(to: SocketId, backlog: seq<Message>)
    | ForceLogout(to: SocketId)
    | JoinError(to: SocketId, reason: JoinRefusal)

  /** The message log, the timer table and what a step emitted. */
  datatype Log = Log(messages: seq<Message>, timers: map<Id, int>, emitted: seq<Event>)

  /** Node's setTimeout runs a delay below 1 ms or above 2^31 - 1 ms (and NaN)
      after 1 ms. */
  function DelayMs(ms: JsNumber): (d: int)
    ensures 1 <= d <= 0x7FFF_FFFF
    ensures ms.Num? && 1 <= ms.value <= 0x7FFF_FFFF ==> d == ms.value
    ensures !(ms.Num? && 1 <= ms.value <= 0x7FFF_FFFF) ==> d == 1
  {
    match ms
    case Num(n) => if 1 <= n <= 0x7FFF_FFFF then n else 1
    case NaN => 1
  }

  /** `s * 1000`, keeping NaN. */
  function ToMs(s: JsNumber): JsNumber {
    match s
    case Num(n) => Num(n * 1000)
    case NaN => NaN
  }
}
