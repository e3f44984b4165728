/** The tables, what a snapshot says they must hold after a full save, and what `Load` reads back. */
module StoreSpec {
  import opened ChatTypes
  import opened Text
  import opened Sorting
  import opened StoreSchema

  datatype UserRow = UserRow(
    username: string,
    publicKey: Option<string>,
    publicKeyUpdatedAt: int,
    usernameCiphertext: Option<string>,
    directoryUpdatedAt: int)

  datatype RoomRow = RoomRow(
    roomKey: string,
    roomNameCiphertext: Option<string>,
    directoryUpdatedAt: int,
    roomOrder: int,
    updatedAt: int)

  datatype HistoryRow = HistoryRow(messageId: string, row: MessageRow)

  datatype Tables = Tables(
    users: map<string, UserRow>,
    rooms: map<string, RoomRow>,
    messages: map<string, MessageRow>,
    history: seq<HistoryRow>)

  /** Archived rows of one message, in insertion order. */
  function HistoryOf(history: seq<HistoryRow>, id: string): seq<MessageRow> {
    if history == [] then []
    else
      var last := history[|history| - 1];
      HistoryOf(history[..|history| - 1], id) + if last.messageId == id then [last.row] else []
  }

  lemma {:induction false} HistoryOfAppend(history: seq<HistoryRow>, h: HistoryRow, id: string)
    ensures HistoryOf(history + [h], id)
         == HistoryOf(history, id) + if h.messageId == id then [h.row] else []
  {
    assert (history + [h])[..|history|] == history;
  }

  /** Every foreign key resolves and room keys are unique. */
  ghost predicate Consistent(t: Tables) {
    && ForeignKeysHold(t)
    && UniqueRoomKeys(t.rooms)
  }

  ghost predicate ForeignKeysHold(t: Tables) {
    && (forall id | id in t.messages :: t.messages[id].roomId in t.rooms && t.messages[id].userId in t.users)
    && HistoryLive(t.history, t.messages)
  }

  ghost predicate HistoryLive(history: seq<HistoryRow>, messages: map<string, MessageRow>) {
    forall h | h in history :: h.messageId in messages
  }

  ghost predicate UniqueRoomKeys(rooms: map<string, RoomRow>) {
    forall i, j | i in rooms && j in rooms && rooms[i].roomKey == rooms[j].roomKey :: i == j
  }

  // ---- snapshots ----

  datatype Snapshot = Snapshot(
    messages: map<string, seq<Message>>,
    rooms: seq<string>,
    users: map<string, string>,
    userPubKeys: map<string, string>,
    userPubKeysUpdatedAt: map<string, int>,
    roomIDs: map<string, string>,
    roomNameCiphertexts: map<string, string>,
    usernameCiphertexts: map<string, string>,
    userDirectoryUpdatedAt: map<string, int>,
    roomDirectoryUpdatedAt: map<string, int>)

  /** Clock and identifier generator of one save; the generator is named by what it is asked for. */
  datatype SaveEnv = SaveEnv(
    now: int,
    roomUuid: string -> string,
    messageUuid: (string, int) -> string)

  /** Listed rooms in order: trimmed, blanks dropped, first occurrence kept. */
  function RoomNames(rooms: seq<string>): seq<string> {
    if rooms == [] then []
    else
      var names := RoomNames(rooms[..|rooms| - 1]);
      var name := TrimSpace(rooms[|rooms| - 1]);
      if name == "" || name in names then names else names + [name]
  }

  ghost function AllRooms(s: Snapshot): set<string> {
    Elements(RoomNames(s.rooms)) + (s.messages.Keys - {""})
  }

  /** The order of a save: listed rooms first, then rooms that only occur in the message map. */
  ghost predicate RoomEnumeration(s: Snapshot, names: seq<string>) {
    RoomNames(s.rooms) <= names && Distinct(names) && Elements(names) == AllRooms(s)
  }

  function RoomIdOf(s: Snapshot, env: SaveEnv, name: string): string {
    var id := TrimSpace(Lookup(s.roomIDs, name, ""));
    if id != "" then id else if HasPrefix(name, DM_PREFIX) then name else env.roomUuid(name)
  }

  /** A place of the message map: room and index. Messages under a blank room are not saved. */
  ghost function Places(s: Snapshot): set<(string, int)> {
    set room, i | room in s.messages && room != "" && 0 <= i < |s.messages[room]| :: (room, i)
  }

  /** The message with missing identifiers filled in. */
  function Filled(s: Snapshot, env: SaveEnv, room: string, i: int): Message
    requires room in s.messages && 0 <= i < |s.messages[room]|
  {
    var m := s.messages[room][i];
    m.(id := if Blank(m.id) then env.messageUuid(room, i) else m.id,
       roomId := if Blank(m.roomId) then RoomIdOf(s, env, room) else m.roomId,
       userId := if Blank(m.userId) then SYSTEM_USER_ID else m.userId)
  }

  /** The messages a full save stores. */
  ghost function Contents(s: Snapshot, env: SaveEnv): set<Message> {
    set room, i | room in s.messages && room != "" && 0 <= i < |s.messages[room]| :: Filled(s, env, room, i)
  }

  ghost function Ids(ms: set<Message>): set<string> {
    set m | m in ms :: m.id
  }

  ghost function Authors(ms: set<Message>): set<string> {
    set m | m in ms :: m.userId
  }

  /** Trimmed, non-blank authors over all messages of the snapshot. */
  function NamedAuthors(s: Snapshot): set<string> {
    set room, i | room in s.messages && 0 <= i < |s.messages[room]| && !Blank(s.messages[room][i].userId)
      :: TrimSpace(s.messages[room][i].userId)
  }

  function TrimmedOf(keys: set<string>): set<string> {
    set k | k in keys && !Blank(k) :: TrimSpace(k)
  }

  /** The users a full save lists: owners of any identity entry and authors. */
  function UserIds(s: Snapshot): set<string> {
    TrimmedOf(s.users.Keys) + TrimmedOf(s.userPubKeys.Keys) + TrimmedOf(s.userPubKeysUpdatedAt.Keys)
    + TrimmedOf(s.usernameCiphertexts.Keys) + TrimmedOf(s.userDirectoryUpdatedAt.Keys) + NamedAuthors(s)
  }

  predicate TrimmedKeys<V>(m: map<string, V>) {
    forall k | k in m :: TrimSpace(k) == k
  }

  ghost predicate DistinctRoomIds(s: Snapshot, env: SaveEnv) {
    forall a, b | a in AllRooms(s) && b in AllRooms(s) && RoomIdOf(s, env, a) == RoomIdOf(s, env, b) :: a == b
  }

  /** What the server guarantees of a snapshot: message rooms carry no surrounding whitespace, room
      names map to room IDs one to one, message IDs are unique and a message names its own room. */
  ghost predicate Storable(s: Snapshot, env: SaveEnv) {
    && TrimmedKeys(s.messages)
    && DistinctRoomIds(s, env)
    && (forall p, q | p in Places(s) && q in Places(s)
          && Filled(s, env, p.0, p.1).id == Filled(s, env, q.0, q.1).id :: p == q)
    && (forall p | p in Places(s) :: Filled(s, env, p.0, p.1).roomId == RoomIdOf(s, env, p.0))
  }

  /** A stored message is in an enumerated room. */
  lemma ContentsRoom(s: Snapshot, env: SaveEnv, names: seq<string>, m: Message)
    requires Storable(s, env) && RoomEnumeration(s, names) && m in Contents(s, env)
    ensures exists k :: 0 <= k < |names| && m.roomId == RoomIdOf(s, env, names[k])
  {
    hide RoomIdOf, Filled;
    var room, i :| room in s.messages && room != "" && 0 <= i < |s.messages[room]| && m == Filled(s, env, room, i);
    assert (room, i) in Places(s) && room in Elements(names);
    var k :| 0 <= k < |names| && names[k] == room;
  }

  /** Rooms already stored keep their IDs. */
  ghost predicate StableRooms(rooms: map<string, RoomRow>, s: Snapshot, env: SaveEnv) {
    forall id | id in rooms && rooms[id].roomKey in AllRooms(s) :: RoomIdOf(s, env, rooms[id].roomKey) == id
  }

  /** One of the first `k` rooms of the save has this ID. */
  ghost predicate Given(s: Snapshot, env: SaveEnv, names: seq<string>, k: int, id: string)
    requires k <= |names|
  {
    exists m :: 0 <= m < k && RoomIdOf(s, env, names[m]) == id
  }

  /** No other stored room has the key of room `k`, unless the save gave its ID to a room before. */
  ghost predicate FitsAt(rooms: map<string, RoomRow>, s: Snapshot, env: SaveEnv, names: seq<string>, k: int)
    requires 0 <= k < |names|
  {
    forall id | id in rooms && rooms[id].roomKey == names[k] && id != RoomIdOf(s, env, names[k]) ::
      Given(s, env, names, k, id)
  }

  /** Every room of the save fits in its turn. */
  ghost predicate Fits(rooms: map<string, RoomRow>, s: Snapshot, env: SaveEnv, names: seq<string>) {
    forall k | 0 <= k < |names| :: FitsAt(rooms, s, env, names, k)
  }

  // ---- the tables after a full save ----

  function RoomRowFor(s: Snapshot, env: SaveEnv, name: string, order: int): RoomRow {
    var id := RoomIdOf(s, env, name);
    RoomRow(name, NullableText(Lookup(s.roomNameCiphertexts, id, "")),
            Lookup(s.roomDirectoryUpdatedAt, id, 0), order, env.now)
  }

  datatype RoomEntry = RoomEntry(id: string, row: RoomRow)

  function RoomEntries(s: Snapshot, env: SaveEnv, names: seq<string>): seq<RoomEntry> {
    seq(|names|, k requires 0 <= k < |names| =>
      RoomEntry(RoomIdOf(s, env, names[k]), RoomRowFor(s, env, names[k], k)))
  }

  function UpsertRooms(rooms: map<string, RoomRow>, entries: seq<RoomEntry>): map<string, RoomRow> {
    if entries == [] then rooms
    else
      var last := entries[|entries| - 1];
      UpsertRooms(rooms, entries[..|entries| - 1])[last.id := last.row]
  }

  function UserRowFor(s: Snapshot, u: string): UserRow {
    UserRow(TrimSpace(Lookup(s.users, u, "")), NullableText(Lookup(s.userPubKeys, u, "")),
            Lookup(s.userPubKeysUpdatedAt, u, 0), NullableText(Lookup(s.usernameCiphertexts, u, "")),
            Lookup(s.userDirectoryUpdatedAt, u, 0))
  }

  /** The row `ensure message user exists` inserts. */
  const BARE_USER := UserRow("", None, 0, None, 0)

  /** Listed users get their row; authors that are not listed keep the row they had, or get a bare
      one. Nobody else is stored. */
  ghost predicate UsersSaved(prior: map<string, UserRow>, s: Snapshot, authors: set<string>,
        users: map<string, UserRow>) {
    && users.Keys == UserIds(s) + authors
    && (forall u | u in UserIds(s) :: users[u] == UserRowFor(s, u))
    && (forall u | u in authors && u !in UserIds(s) :: users[u] == Lookup(prior, u, BARE_USER))
  }

  function RowAfter(prior: map<string, MessageRow>, id: string, row: MessageRow): MessageRow {
    if id in prior then Upsert(prior[id], row) else row
  }

  function ArchivedBy(prior: map<string, MessageRow>, id: string, row: MessageRow): seq<MessageRow> {
    if id in prior then Archived(prior[id], row) else []
  }

  /** Exactly the given messages are stored; each went through the upsert and the trigger. */
  ghost predicate MessagesSaved(prior: Tables, ms: set<Message>, t: Tables) {
    && t.messages.Keys == Ids(ms)
    && (forall m | m in ms :: MessageSaved(prior, m, t))
    && HistoryLive(t.history, t.messages)
  }

  ghost predicate MessageSaved(prior: Tables, m: Message, t: Tables) {
    && m.id in t.messages
    && t.messages[m.id] == RowAfter(prior.messages, m.id, FullRow(m))
    && HistoryOf(t.history, m.id) == HistoryOf(prior.history, m.id) + ArchivedBy(prior.messages, m.id, FullRow(m))
  }

  ghost predicate Saved(prior: Tables, s: Snapshot, env: SaveEnv, names: seq<string>, t: Tables) {
    && RoomEnumeration(s, names)
    && t.rooms == UpsertRooms(map[], RoomEntries(s, env, names))
    && UsersSaved(prior.users, s, Authors(Contents(s, env)), t.users)
    && MessagesSaved(prior, Contents(s, env), t)
  }

  // ---- incremental saves ----

  datatype Metadata = Metadata(
    roomKey: string,
    roomNameCiphertext: string,
    roomDirectoryUpdatedAt: int,
    userPublicKey: string,
    userPublicKeyUpdatedAt: int,
    usernameCiphertext: string,
    userDirectoryUpdatedAt: int)

  function Max(a: int, b: int): int {
    if a < b then b else a
  }

  function Prefer<T>(a: Option<T>, b: Option<T>): Option<T> {
    if a.Some? then a else b
  }

  function MergeUser(users: map<string, UserRow>, m: Message, meta: Metadata): UserRow {
    var row := UserRow(m.username, NullableText(meta.userPublicKey), meta.userPublicKeyUpdatedAt,
                       NullableText(meta.usernameCiphertext), meta.userDirectoryUpdatedAt);
    if m.userId !in users then row
    else
      var prior := users[m.userId];
      UserRow(row.username, Prefer(row.publicKey, prior.publicKey),
              Max(prior.publicKeyUpdatedAt, row.publicKeyUpdatedAt),
              Prefer(row.usernameCiphertext, prior.usernameCiphertext),
              Max(prior.directoryUpdatedAt, row.directoryUpdatedAt))
  }

  function EffectiveRoomKey(m: Message, meta: Metadata): string {
    if Blank(meta.roomKey) then m.roomId else TrimSpace(meta.roomKey)
  }

  function MergeRoom(rooms: map<string, RoomRow>, m: Message, roomKey: string, meta: Metadata, now: int): RoomRow {
    var row := RoomRow(roomKey, NullableText(meta.roomNameCiphertext),
                       meta.roomDirectoryUpdatedAt, 0, now);
    if m.roomId !in rooms then row
    else
      var prior := rooms[m.roomId];
      RoomRow(row.roomKey, Prefer(row.roomNameCiphertext, prior.roomNameCiphertext),
              Max(prior.directoryUpdatedAt, row.directoryUpdatedAt), prior.roomOrder, now)
  }

  /** When `SaveMessage` succeeds: identifiers present, the room key free for this room ID, and the
      message ID not yet stored. */
  predicate Insertable(t: Tables, m: Message, meta: Metadata) {
    && !Blank(m.id) && !Blank(m.roomId) && !Blank(m.userId)
    && (forall id | id in t.rooms && t.rooms[id].roomKey == EffectiveRoomKey(m, meta) :: id == m.roomId)
    && m.id !in t.messages
  }

  function InsertMessage(t: Tables, m: Message, meta: Metadata, now: int): Tables {
    Tables(t.users[m.userId := MergeUser(t.users, m, meta)],
           t.rooms[m.roomId := MergeRoom(t.rooms, m, EffectiveRoomKey(m, meta), meta, now)],
           t.messages[m.id := IncrementalRow(m)],
           t.history)
  }

  lemma InsertConsistent(t: Tables, m: Message, meta: Metadata, now: int)
    requires Consistent(t) && Insertable(t, m, meta)
    ensures Consistent(InsertMessage(t, m, meta, now))
  {
    hide TrimSpace;
    hide MergeUser;
    var t' := InsertMessage(t, m, meta, now);
    assert t'.messages[m.id].roomId == m.roomId && t'.messages[m.id].userId == m.userId;
    assert t'.rooms[m.roomId].roomKey == EffectiveRoomKey(m, meta);
  }

  // ---- loading ----

  datatype LoadedState = LoadedState(
    messages: map<string, seq<Message>>,
    rooms: seq<string>,
    roomIDs: map<string, string>,
    roomNameCiphertexts: map<string, string>,
    roomDirectoryUpdatedAt: map<string, int>,
    users: map<string, string>,
    userPubKeys: map<string, string>,
    userPubKeysUpdatedAt: map<string, int>,
    usernameCiphertexts: map<string, string>,
    userDirectoryUpdatedAt: map<string, int>)

  /** ORDER BY room_order, updated_at, room_key; keys are unique, so the ID never decides. */
  datatype RoomKey = RoomKey(order: int, updatedAt: int, key: string, id: string)

  predicate RoomBefore(a: RoomKey, b: RoomKey) {
    a.order < b.order || (a.order == b.order && (a.updatedAt < b.updatedAt || (a.updatedAt == b.updatedAt
      && (Less(a.key, b.key) || (a.key == b.key && Less(a.id, b.id))))))
  }

  lemma MessageBeforeIsOrder()
    ensures TotalOrder(MessageBefore)
  {
    forall a ensures !MessageBefore(a, a) { LessIrreflexive(a.id); }
    forall a, b ensures MessageBefore(a, b) || MessageBefore(b, a) || a == b { LessTotal(a.id, b.id); }
    forall a, b, c | MessageBefore(a, b) && MessageBefore(b, c) ensures MessageBefore(a, c) {
      if Less(a.id, b.id) && Less(b.id, c.id) { LessTransitive(a.id, b.id, c.id); }
    }
  }

  lemma RoomBeforeIsOrder()
    ensures TotalOrder(RoomBefore)
  {
    forall a ensures !RoomBefore(a, a) { LessIrreflexive(a.key); LessIrreflexive(a.id); }
    forall a, b ensures RoomBefore(a, b) || RoomBefore(b, a) || a == b {
      LessTotal(a.key, b.key);
      LessTotal(a.id, b.id);
    }
    forall a, b, c | RoomBefore(a, b) && RoomBefore(b, c) ensures RoomBefore(a, c) {
      if Less(a.key, b.key) && Less(b.key, c.key) { LessTransitive(a.key, b.key, c.key); }
      if Less(a.id, b.id) && Less(b.id, c.id) { LessTransitive(a.id, b.id, c.id); }
    }
  }

  /** Room keys are stored trimmed and non-blank by every save this model covers. */
  ghost predicate Tidy(t: Tables) {
    forall id | id in t.rooms :: TrimSpace(t.rooms[id].roomKey) == t.rooms[id].roomKey != ""
  }

  function MessageKeyOf(t: Tables, id: string): MessageKey
    requires id in t.messages
  {
    MessageKey(t.messages[id].createdAt, id)
  }

  function RoomKeyOf(t: Tables, id: string): RoomKey
    requires id in t.rooms
  {
    RoomKey(t.rooms[id].roomOrder, t.rooms[id].updatedAt, t.rooms[id].roomKey, id)
  }

  ghost function RoomOrder(t: Tables): seq<RoomKey> {
    RoomBeforeIsOrder();
    SortSet(set id | id in t.rooms :: RoomKeyOf(t, id), RoomBefore)
  }

  function RoomKeyNames(keys: seq<RoomKey>): seq<string> {
    seq(|keys|, i requires 0 <= i < |keys| => keys[i].key)
  }

  /** Sort keys of the messages of one room. */
  ghost function MessageKeysIn(t: Tables, room: string): set<MessageKey>
    requires Consistent(t)
  {
    set id | id in t.messages && t.rooms[t.messages[id].roomId].roomKey == room :: MessageKeyOf(t, id)
  }

  function Username(t: Tables, u: string): string {
    TrimSpace(if u in t.users then t.users[u].username else "")
  }

  function LoadedMessage(t: Tables, id: string): Message
    requires id in t.messages
  {
    LoadRow(id, t.messages[id], Username(t, t.messages[id].userId))
  }

  function LoadKeys(t: Tables, keys: seq<MessageKey>): seq<Message>
    requires forall k | k in keys :: k.id in t.messages
  {
    seq(|keys|, i requires 0 <= i < |keys| => LoadedMessage(t, keys[i].id))
  }

  /** The messages of one room, oldest first. */
  ghost function RoomMessages(t: Tables, room: string): seq<Message>
    requires Consistent(t)
  {
    MessageBeforeIsOrder();
    var keys := SortSet(MessageKeysIn(t, room), MessageBefore);
    assert forall k | k in keys :: k in Elements(keys);
    LoadKeys(t, keys)
  }

  ghost function RoomKeys(t: Tables): set<string> {
    set id | id in t.rooms :: t.rooms[id].roomKey
  }

  ghost function MessagesByRoom(t: Tables): map<string, seq<Message>>
    requires Consistent(t)
  {
    map room | room in RoomKeys(t) :: RoomMessages(t, room)
  }

  function NonBlank<K(==)>(m: map<K, Option<string>>): map<K, string> {
    map k | k in m && !Blank(Coalesce(m[k], "")) :: Coalesce(m[k], "")
  }

  function Positive<K(==)>(m: map<K, int>): map<K, int> {
    map k | k in m && m[k] > 0 :: m[k]
  }

  ghost function RoomIdsByName(t: Tables): map<string, string>
    requires Consistent(t)
  {
    map key | key in RoomKeys(t) :: RoomWithKey(t, key)
  }

  /** The room stored under a key; there is only one. */
  ghost function RoomWithKey(t: Tables, key: string): (id: string)
    requires Consistent(t) && key in RoomKeys(t)
    ensures id in t.rooms && t.rooms[id].roomKey == key
  {
    var id :| id in t.rooms && t.rooms[id].roomKey == key;
    id
  }

  function RoomCiphertexts(t: Tables): map<string, string> {
    NonBlank(map id | id in t.rooms :: t.rooms[id].roomNameCiphertext)
  }

  function RoomStamps(t: Tables): map<string, int> {
    Positive(map id | id in t.rooms :: t.rooms[id].directoryUpdatedAt)
  }

  function Usernames(t: Tables): map<string, string> {
    map u | u in t.users :: TrimSpace(t.users[u].username)
  }

  function PublicKeys(t: Tables): map<string, string> {
    NonBlank(map u | u in t.users :: t.users[u].publicKey)
  }

  function PublicKeyStamps(t: Tables): map<string, int> {
    Positive(map u | u in t.users :: t.users[u].publicKeyUpdatedAt)
  }

  function UsernameCiphertexts(t: Tables): map<string, string> {
    NonBlank(map u | u in t.users :: t.users[u].usernameCiphertext)
  }

  function UserStamps(t: Tables): map<string, int> {
    Positive(map u | u in t.users :: t.users[u].directoryUpdatedAt)
  }

  ghost function Loaded(t: Tables): LoadedState
    requires Consistent(t)
  {
    LoadedState(
      MessagesByRoom(t),
      RoomKeyNames(RoomOrder(t)),
      RoomIdsByName(t),
      RoomCiphertexts(t), RoomStamps(t), Usernames(t), PublicKeys(t), PublicKeyStamps(t),
      UsernameCiphertexts(t), UserStamps(t))
  }
}
