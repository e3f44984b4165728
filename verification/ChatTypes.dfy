/** The server's message record (server-go/internal/server/types.go). A Go nil pointer, nil slice
    or nil map is `None`. */
module ChatTypes {
  import opened Text

  datatype Option<+T> = None | Some(value: T)

  const SYSTEM_USER_ID := "system"
  const DM_PREFIX := "@dmid:"

  /** The text of a join message, which only the server posts. */
  const USER_JOINED := "<-- has entered the room"

  datatype MessageVersion = MessageVersion(
    encryptedMessage: string,
    encryptedFor: Option<map<string, string>>,
    version: int,
    changeSummary: string,
    timestamp: int)

  datatype Message = Message(
    id: string,
    timestamp: int,
    username: string,
    userId: string,
    roomId: string,
    content: string,
    keyTransferPackage: string,
    keyTransferFrom: string,
    encryptedMessage: string,
    encryptedFor: Option<map<string, string>>,
    versions: Option<seq<MessageVersion>>,
    currentVersion: Option<int>,
    visibleTo: Option<seq<string>>,
    replyTo: Option<int>,
    voteTotal: Option<int>,
    userVotes: Option<map<string, string>>,
    edited: bool,
    deleted: bool)

  /** Go's map lookup: the zero value when the key is missing. */
  function Lookup<V>(m: map<string, V>, key: string, zero: V): V {
    if key in m then m[key] else zero
  }

  predicate HasPrefix(s: string, prefix: string) {
    prefix <= s
  }

  // ---- the order of a room's history ----

  /** By time of creation and then ID: the database's ORDER BY created_at, message_id and the order of
      the paging cursor. */
  datatype MessageKey = MessageKey(createdAt: int, id: string)

  predicate MessageBefore(a: MessageKey, b: MessageKey) {
    a.createdAt < b.createdAt || (a.createdAt == b.createdAt && Less(a.id, b.id))
  }

  predicate Earlier(a: Message, b: Message) {
    MessageBefore(MessageKey(a.timestamp, a.id), MessageKey(b.timestamp, b.id))
  }

  predicate OldestFirst(ms: seq<Message>) {
    forall i, j | 0 <= i < j < |ms| :: Earlier(ms[i], ms[j])
  }

  predicate NewestFirst(ms: seq<Message>) {
    forall i, j | 0 <= i < j < |ms| :: Earlier(ms[j], ms[i])
  }
}
