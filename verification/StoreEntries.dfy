/** What incremental saves make of the directory: the entries of users and rooms as they load. */
module StoreEntries {
  import opened ChatTypes
  import opened Text
  import opened Sorting
  import opened StoreSchema
  import opened StoreSpec
  import opened StoreRoundTrip
  import opened StoreRefinement
  import opened StoreOrder

  // ---- what a full save gives back ----

  /** Message `m` of the memory as it loads: blank text empty, a blank ID and author filled in. */
  predicate ComesBackAs(m: Message, n: Message, id: string, roomId: string, l: LoadedState) {
    && n.id == (if Blank(m.id) then id else m.id) && n.timestamp == m.timestamp && n.roomId == roomId
    && n.userId == (if Blank(m.userId) then "system" else m.userId) && n.username == Lookup(l.users, n.userId, "")
    && n.content == (if Blank(m.content) then "" else m.content)
    && n.keyTransferPackage == (if Blank(m.keyTransferPackage) then "" else m.keyTransferPackage)
    && n.keyTransferFrom == (if Blank(m.keyTransferFrom) then "" else m.keyTransferFrom)
    && n.encryptedMessage == m.encryptedMessage && n.encryptedFor == m.encryptedFor && n.versions == m.versions
    && n.currentVersion == m.currentVersion && n.visibleTo == m.visibleTo && n.replyTo == m.replyTo
    && n.voteTotal == m.voteTotal && n.userVotes == m.userVotes && n.edited == m.edited && n.deleted == m.deleted
  }

  /** Message `i` of the room comes back as `n`. */
  ghost predicate Returns(s: Snapshot, env: SaveEnv, l: LoadedState, room: string, i: int, n: Message) {
    && room in s.messages && 0 <= i < |s.messages[room]| && room in l.roomIDs
    && ComesBackAs(s.messages[room][i], n, env.messageUuid(room, i), l.roomIDs[room], l)
  }

  ghost predicate IsBack(s: Snapshot, env: SaveEnv, l: LoadedState, room: string, i: int)
    requires room in l.messages
  {
    exists n :: n in l.messages[room] && Returns(s, env, l, room, i, n)
  }

  /** Every message of a room comes back, and nothing else. */
  lemma {:induction false} MessagesComeBack(s: Snapshot, env: SaveEnv, names: seq<string>, l: LoadedState, room: string)
    requires Storable(s, env) && RoomsLoaded(s, env, names, l) && MessagesLoaded(s, env, l)
    requires room in s.messages && room != ""
    ensures room in l.messages && |l.messages[room]| == |s.messages[room]|
    ensures forall i | 0 <= i < |s.messages[room]| :: IsBack(s, env, l, room, i)
    ensures forall n | n in l.messages[room] :: exists i :: Returns(s, env, l, room, i, n)
  {
    RoomsOf(s, room);
    hide RoomIdOf, TrimSpace, OldestFirst, AllRooms, RoomsLoaded, Restored, Filled, Returns, Storable;
    assert RoomLoaded(s, env, room, l);
    var ms, ns := s.messages[room], l.messages[room];
    forall i | 0 <= i < |ms| ensures IsBack(s, env, l, room, i) {
      var m := Filled(s, env, room, i);
      assert m in FiledUnder(s, env, room);
      assert Restored(m, Lookup(l.users, m.userId, "")) in Elements(ns);
      FilledReturns(s, env, names, l, room, i);
    }
    forall n | n in ns ensures exists i :: Returns(s, env, l, room, i, n) {
      assert n in Elements(ns);
      var m :| m in FiledUnder(s, env, room) && n == Restored(m, Lookup(l.users, m.userId, ""));
      var i :| 0 <= i < |ms| && m == Filled(s, env, room, i);
      FilledReturns(s, env, names, l, room, i);
    }
  }

  lemma {:induction false} FilledReturns(s: Snapshot, env: SaveEnv, names: seq<string>, l: LoadedState, room: string,
        i: int)
    requires Storable(s, env) && RoomsLoaded(s, env, names, l)
    requires room in s.messages && room != "" && 0 <= i < |s.messages[room]|
    ensures var m := Filled(s, env, room, i); Returns(s, env, l, room, i, Restored(m, Lookup(l.users, m.userId, "")))
  {
    RoomsOf(s, room);
    hide RoomIdOf, AllRooms, RoomDirectoryLoaded, RoomEnumeration, Restored, Filled, ComesBackAs;
    assert (room, i) in Places(s);
    FilledComesBack(s, env, room, i, l);
  }

  lemma {:induction false} FilledComesBack(s: Snapshot, env: SaveEnv, room: string, i: int, l: LoadedState)
    requires room in s.messages && 0 <= i < |s.messages[room]|
    ensures var m := Filled(s, env, room, i);
      ComesBackAs(s.messages[room][i], Restored(m, Lookup(l.users, m.userId, "")), env.messageUuid(room, i), m.roomId,
                  l)
  {
    hide TrimSpace, RoomIdOf;
  }

  /** A room loads under the ID it was assigned; without one, a direct-message room under its name and any
      other room under a new ID. */
  lemma {:induction false} RoomIdsComeBack(s: Snapshot, env: SaveEnv, names: seq<string>, l: LoadedState, room: string)
    requires RoomsLoaded(s, env, names, l) && room in l.rooms
    ensures room in l.roomIDs
    ensures var given := room in s.roomIDs && !Blank(s.roomIDs[room]);
      && (given ==> l.roomIDs[room] == TrimSpace(s.roomIDs[room]))
      && (!given && "@dmid:" <= room ==> l.roomIDs[room] == room)
      && (!given && !("@dmid:" <= room) ==> l.roomIDs[room] == env.roomUuid(room))
  {
    hide TrimSpace, AllRooms, RoomDirectoryLoaded;
    assert room in Elements(names);
    assert Blank("") by { BlankEmpty(); }
  }

  /** Some entry of the map is the user's, surrounding space ignored. */
  predicate Mentions<V>(m: map<string, V>, u: string) {
    exists k :: k in m && TrimSpace(k) == u
  }

  predicate Writes(s: Snapshot, u: string) {
    exists room, i :: room in s.messages && 0 <= i < |s.messages[room]| && TrimSpace(s.messages[room][i].userId) == u
  }

  lemma {:induction false} MentionedUsers<V>(m: map<string, V>, u: string)
    requires u != ""
    ensures u in TrimmedOf(m.Keys) <==> Mentions(m, u)
  {
    hide TrimSpace;
  }

  lemma {:induction false} WritingUsers(s: Snapshot, u: string)
    requires u != ""
    ensures u in NamedAuthors(s) <==> Writes(s, u)
  {
    hide TrimSpace;
  }

  /** The users that load are those with an entry of any kind and the authors. */
  lemma {:induction false} UsersComeBack(s: Snapshot, l: LoadedState, u: string)
    requires UsersLoaded(s, l)
    ensures u in l.users <==> (u != ""
      && (Mentions(s.users, u) || Mentions(s.userPubKeys, u) || Mentions(s.userPubKeysUpdatedAt, u)
          || Mentions(s.usernameCiphertexts, u) || Mentions(s.userDirectoryUpdatedAt, u) || Writes(s, u)))
  {
    ListedUsers(s, u);
    hide UserIds, Mentions, Writes, Clean, Present, Positive, TrimSpace;
  }

  lemma {:induction false} ListedUsers(s: Snapshot, u: string)
    ensures u in UserIds(s) <==> (u != ""
      && (Mentions(s.users, u) || Mentions(s.userPubKeys, u) || Mentions(s.userPubKeysUpdatedAt, u)
          || Mentions(s.usernameCiphertexts, u) || Mentions(s.userDirectoryUpdatedAt, u) || Writes(s, u)))
  {
    assert forall keys: set<string> :: "" !in TrimmedOf(keys);
    assert "" !in NamedAuthors(s);
    hide TrimSpace, TrimmedOf, NamedAuthors, Mentions, Writes;
    if u != "" {
      MentionedUsers(s.users, u);
      MentionedUsers(s.userPubKeys, u);
      MentionedUsers(s.userPubKeysUpdatedAt, u);
      MentionedUsers(s.usernameCiphertexts, u);
      MentionedUsers(s.userDirectoryUpdatedAt, u);
      WritingUsers(s, u);
    }
  }

  /** An author that the snapshot does not list, such as the system, loads as it did before, or with an
      empty name and nothing else if it was not stored. */
  lemma {:induction false} UnlistedAuthorsStay(prior: Tables, s: Snapshot, env: SaveEnv, names: seq<string>, t: Tables,
        u: string)
    requires Saved(prior, s, env, names, t) && Consistent(prior) && Consistent(t)
    requires u in t.users && u !in UserIds(s)
    ensures var before, after := Loaded(prior), Loaded(t);
      && u in after.users && after.users[u] == Lookup(before.users, u, "")
      && Lookup(after.userPubKeys, u, "") == Lookup(before.userPubKeys, u, "")
      && Lookup(after.usernameCiphertexts, u, "") == Lookup(before.usernameCiphertexts, u, "")
      && Lookup(after.userPubKeysUpdatedAt, u, 0) == Lookup(before.userPubKeysUpdatedAt, u, 0)
      && Lookup(after.userDirectoryUpdatedAt, u, 0) == Lookup(before.userDirectoryUpdatedAt, u, 0)
  {
    hide Saved, Consistent, Loaded, UserIds, Usernames, PublicKeys, UsernameCiphertexts, PublicKeyStamps, UserStamps;
    hide TextRead, StampRead, TrimSpace;
    StoredRow(prior, s, env, names, t, u);
    UserReads(prior, u);
    UserReads(t, u);
    LoadedUsers(prior);
    LoadedUsers(t);
    BareName();
  }

  lemma {:induction false} LoadedUsers(t: Tables)
    requires Consistent(t)
    ensures var l := Loaded(t);
      && l.users == Usernames(t) && l.userPubKeys == PublicKeys(t) && l.userPubKeysUpdatedAt == PublicKeyStamps(t)
      && l.usernameCiphertexts == UsernameCiphertexts(t) && l.userDirectoryUpdatedAt == UserStamps(t)
  {
    hide Consistent;
  }

  lemma BareName()
    ensures TrimSpace(BARE_USER.username) == ""
  {
  }

  lemma {:induction false} StoredRow(prior: Tables, s: Snapshot, env: SaveEnv, names: seq<string>, t: Tables, u: string)
    requires Saved(prior, s, env, names, t) && u in t.users && u !in UserIds(s)
    ensures t.users[u] == Lookup(prior.users, u, BARE_USER)
  {
    hide UserIds, Contents, Authors, RoomEnumeration, MessagesSaved, UpsertRooms;
  }

  function TextRead(column: Option<string>): string {
    if Blank(Coalesce(column, "")) then "" else Coalesce(column, "")
  }

  function StampRead(column: int): int {
    if column > 0 then column else 0
  }

  /** What loads for a user is read off the row, and off an empty row if there is none. */
  lemma {:induction false} UserReads(t: Tables, u: string)
    ensures var row := Lookup(t.users, u, BARE_USER);
      && Lookup(Usernames(t), u, "") == TrimSpace(row.username) && (u in Usernames(t) <==> u in t.users)
      && Lookup(PublicKeys(t), u, "") == TextRead(row.publicKey)
      && Lookup(UsernameCiphertexts(t), u, "") == TextRead(row.usernameCiphertext)
      && Lookup(PublicKeyStamps(t), u, 0) == StampRead(row.publicKeyUpdatedAt)
      && Lookup(UserStamps(t), u, 0) == StampRead(row.directoryUpdatedAt)
  {
    BlankEmpty();
    hide Trim;
  }

  /** A full save archives the stored row of a message if and only if its content, as it loads, its versions,
      audience, reply target or marks change; not for votes, and not for its room, author or time. */
  lemma {:induction false} ArchivedExactly(prior: MessageRow, m: Message)
    ensures var a, b := LoadRow(m.id, prior, ""), LoadRow(m.id, FullRow(m), "");
      Archived(prior, FullRow(m)) == [prior] <==>
      (|| a.content != b.content || a.keyTransferPackage != b.keyTransferPackage
       || a.keyTransferFrom != b.keyTransferFrom || a.encryptedMessage != b.encryptedMessage
       || a.encryptedFor != b.encryptedFor || a.versions != b.versions || a.visibleTo != b.visibleTo
       || Coalesce(a.currentVersion, -1) != Coalesce(b.currentVersion, -1)
       || Coalesce(a.replyTo, -1) != Coalesce(b.replyTo, -1) || a.edited != b.edited || a.deleted != b.deleted)
    ensures |Archived(prior, FullRow(m))| <= 1
  {
    hide NullableText;
  }

  /** An incremental save succeeds if and only if message, room and author have IDs, the message is not
      stored and no other room loads under the room's key. */
  lemma {:induction false} SucceedsExactly(t: Tables, m: Message, meta: Metadata)
    requires Consistent(t)
    ensures var key := if Blank(meta.roomKey) then m.roomId else TrimSpace(meta.roomKey);
      Insertable(t, m, meta) <==>
      (TrimSpace(m.id) != "" && TrimSpace(m.roomId) != "" && TrimSpace(m.userId) != "" && m.id !in t.messages
       && (key in Loaded(t).roomIDs ==> Loaded(t).roomIDs[key] == m.roomId))
  {
    hide TrimSpace, MessagesByRoom, RoomOrder;
  }

  // ---- one incremental save ----

  function WithText(m: map<string, string>, key: string, text: string): map<string, string> {
    if Blank(text) then m else m[key := text]
  }

  function WithStamp(m: map<string, int>, key: string, stamp: int): map<string, int> {
    if stamp <= Lookup(m, key, 0) then m else m[key := stamp]
  }

  lemma {:induction false} TextStored(column: map<string, Option<string>>, key: string, text: string)
    ensures NonBlank(column[key := if !Blank(text) then Some(text) else Lookup(column, key, None)])
         == WithText(NonBlank(column), key, text)
  {
    hide Trim;
    BlankEmpty();
  }

  lemma {:induction false} StampStored(column: map<string, int>, key: string, stamp: int)
    ensures Positive(column[key := if key !in column || column[key] < stamp then stamp else column[key]])
         == WithStamp(Positive(column), key, stamp)
  {
  }

  /** THE DIRECTORY AFTER AN INCREMENTAL SAVE. Of the author and the room of the message, each text of
      the metadata that is not blank is what loads and each timestamp that is later; the author's name is
      the one on the message. Every other entry loads as before. */
  lemma {:induction false} InsertedEntries(t: Tables, m: Message, meta: Metadata, now: int)
    requires Consistent(t) && Insertable(t, m, meta) && Consistent(InsertMessage(t, m, meta, now))
    ensures var before, after := Loaded(t), Loaded(InsertMessage(t, m, meta, now));
      && after.userPubKeys == WithText(before.userPubKeys, m.userId, meta.userPublicKey)
      && after.usernameCiphertexts == WithText(before.usernameCiphertexts, m.userId, meta.usernameCiphertext)
      && after.roomNameCiphertexts == WithText(before.roomNameCiphertexts, m.roomId, meta.roomNameCiphertext)
      && after.userPubKeysUpdatedAt
           == WithStamp(before.userPubKeysUpdatedAt, m.userId, meta.userPublicKeyUpdatedAt)
      && after.userDirectoryUpdatedAt
           == WithStamp(before.userDirectoryUpdatedAt, m.userId, meta.userDirectoryUpdatedAt)
      && after.roomDirectoryUpdatedAt
           == WithStamp(before.roomDirectoryUpdatedAt, m.roomId, meta.roomDirectoryUpdatedAt)
      && after.users == before.users[m.userId := TrimSpace(m.username)]
  {
    hide Consistent, Insertable, MessagesByRoom, RoomOrder, RoomKeyNames, RoomIdsByName, WithText, WithStamp;
    UserColumns(t, m, meta, now);
    RoomColumns(t, m, meta, now);
    hide InsertMessage, PublicKeys, PublicKeyStamps, UsernameCiphertexts, UserStamps, Usernames, RoomCiphertexts;
    hide RoomStamps, TrimSpace;
  }

  lemma {:induction false} MergedUser(users: map<string, UserRow>, m: Message, meta: Metadata)
    ensures var row, known := MergeUser(users, m, meta), m.userId in users;
      && row.username == m.username
      && row.publicKey == (if !Blank(meta.userPublicKey) then Some(meta.userPublicKey)
                           else if known then users[m.userId].publicKey else None)
      && row.usernameCiphertext == (if !Blank(meta.usernameCiphertext) then Some(meta.usernameCiphertext)
                                    else if known then users[m.userId].usernameCiphertext else None)
      && row.publicKeyUpdatedAt == (if !known || users[m.userId].publicKeyUpdatedAt < meta.userPublicKeyUpdatedAt
                                    then meta.userPublicKeyUpdatedAt else users[m.userId].publicKeyUpdatedAt)
      && row.directoryUpdatedAt == (if !known || users[m.userId].directoryUpdatedAt < meta.userDirectoryUpdatedAt
                                    then meta.userDirectoryUpdatedAt else users[m.userId].directoryUpdatedAt)
  {
    hide Blank;
  }

  lemma {:induction false} MergedRoom(rooms: map<string, RoomRow>, m: Message, key: string, meta: Metadata, now: int)
    ensures var row, known := MergeRoom(rooms, m, key, meta, now), m.roomId in rooms;
      && row.roomNameCiphertext == (if !Blank(meta.roomNameCiphertext) then Some(meta.roomNameCiphertext)
                                    else if known then rooms[m.roomId].roomNameCiphertext else None)
      && row.directoryUpdatedAt == (if !known || rooms[m.roomId].directoryUpdatedAt < meta.roomDirectoryUpdatedAt
                                    then meta.roomDirectoryUpdatedAt else rooms[m.roomId].directoryUpdatedAt)
  {
    hide Blank;
  }

  lemma {:induction false} UserKeySet(t: Tables, t': Tables, u: string, row: UserRow, text: string)
    requires t'.users == t.users[u := row]
    requires row.publicKey
          == if !Blank(text) then Some(text) else if u in t.users then t.users[u].publicKey else None
    ensures PublicKeys(t') == WithText(PublicKeys(t), u, text)
  {
    hide Blank, NonBlank, WithText;
    var column := map u | u in t.users :: t.users[u].publicKey;
    TextStored(column, u, text);
    assert (map u | u in t'.users :: t'.users[u].publicKey) == column[u := row.publicKey];
  }

  lemma {:induction false} UserNameSet(t: Tables, t': Tables, u: string, row: UserRow, text: string)
    requires t'.users == t.users[u := row]
    requires row.usernameCiphertext
          == if !Blank(text) then Some(text) else if u in t.users then t.users[u].usernameCiphertext else None
    ensures UsernameCiphertexts(t') == WithText(UsernameCiphertexts(t), u, text)
  {
    hide Blank, NonBlank, WithText;
    var column := map u | u in t.users :: t.users[u].usernameCiphertext;
    TextStored(column, u, text);
    assert (map u | u in t'.users :: t'.users[u].usernameCiphertext) == column[u := row.usernameCiphertext];
  }

  lemma {:induction false} RoomNameSet(t: Tables, t': Tables, u: string, row: RoomRow, text: string)
    requires t'.rooms == t.rooms[u := row]
    requires row.roomNameCiphertext
          == if !Blank(text) then Some(text) else if u in t.rooms then t.rooms[u].roomNameCiphertext else None
    ensures RoomCiphertexts(t') == WithText(RoomCiphertexts(t), u, text)
  {
    hide Blank, NonBlank, WithText;
    var column := map u | u in t.rooms :: t.rooms[u].roomNameCiphertext;
    TextStored(column, u, text);
    assert (map u | u in t'.rooms :: t'.rooms[u].roomNameCiphertext) == column[u := row.roomNameCiphertext];
  }

  lemma {:induction false} UserKeyTimeSet(t: Tables, t': Tables, u: string, row: UserRow, stamp: int)
    requires t'.users == t.users[u := row]
    requires row.publicKeyUpdatedAt
          == if u !in t.users || t.users[u].publicKeyUpdatedAt < stamp then stamp else t.users[u].publicKeyUpdatedAt
    ensures PublicKeyStamps(t') == WithStamp(PublicKeyStamps(t), u, stamp)
  {
    hide Positive, WithStamp;
    var column := map u | u in t.users :: t.users[u].publicKeyUpdatedAt;
    StampStored(column, u, stamp);
    assert (map u | u in t'.users :: t'.users[u].publicKeyUpdatedAt) == column[u := row.publicKeyUpdatedAt];
  }

  lemma {:induction false} UserTimeSet(t: Tables, t': Tables, u: string, row: UserRow, stamp: int)
    requires t'.users == t.users[u := row]
    requires row.directoryUpdatedAt
          == if u !in t.users || t.users[u].directoryUpdatedAt < stamp then stamp else t.users[u].directoryUpdatedAt
    ensures UserStamps(t') == WithStamp(UserStamps(t), u, stamp)
  {
    hide Positive, WithStamp;
    var column := map u | u in t.users :: t.users[u].directoryUpdatedAt;
    StampStored(column, u, stamp);
    assert (map u | u in t'.users :: t'.users[u].directoryUpdatedAt) == column[u := row.directoryUpdatedAt];
  }

  lemma {:induction false} RoomTimeSet(t: Tables, t': Tables, u: string, row: RoomRow, stamp: int)
    requires t'.rooms == t.rooms[u := row]
    requires row.directoryUpdatedAt
          == if u !in t.rooms || t.rooms[u].directoryUpdatedAt < stamp then stamp else t.rooms[u].directoryUpdatedAt
    ensures RoomStamps(t') == WithStamp(RoomStamps(t), u, stamp)
  {
    hide Positive, WithStamp;
    var column := map u | u in t.rooms :: t.rooms[u].directoryUpdatedAt;
    StampStored(column, u, stamp);
    assert (map u | u in t'.rooms :: t'.rooms[u].directoryUpdatedAt) == column[u := row.directoryUpdatedAt];
  }

  lemma {:induction false} UsernameSet(t: Tables, t': Tables, u: string, row: UserRow)
    requires t'.users == t.users[u := row]
    ensures Usernames(t') == Usernames(t)[u := TrimSpace(row.username)]
  {
    hide TrimSpace;
  }

  lemma {:induction false} UserColumns(t: Tables, m: Message, meta: Metadata, now: int)
    ensures var t', u := InsertMessage(t, m, meta, now), m.userId;
      && PublicKeys(t') == WithText(PublicKeys(t), u, meta.userPublicKey)
      && UsernameCiphertexts(t') == WithText(UsernameCiphertexts(t), u, meta.usernameCiphertext)
      && PublicKeyStamps(t') == WithStamp(PublicKeyStamps(t), u, meta.userPublicKeyUpdatedAt)
      && UserStamps(t') == WithStamp(UserStamps(t), u, meta.userDirectoryUpdatedAt)
      && Usernames(t') == Usernames(t)[u := TrimSpace(m.username)]
  {
    var t', u, row := InsertMessage(t, m, meta, now), m.userId, MergeUser(t.users, m, meta);
    assert t'.users == t.users[u := row];
    MergedUser(t.users, m, meta);
    hide InsertMessage, MergeUser, PublicKeys, UsernameCiphertexts, PublicKeyStamps, UserStamps, Usernames, Blank;
    hide TrimSpace, WithText, WithStamp;
    UserKeySet(t, t', u, row, meta.userPublicKey);
    UserNameSet(t, t', u, row, meta.usernameCiphertext);
    UserKeyTimeSet(t, t', u, row, meta.userPublicKeyUpdatedAt);
    UserTimeSet(t, t', u, row, meta.userDirectoryUpdatedAt);
    UsernameSet(t, t', u, row);
  }

  lemma {:induction false} RoomColumns(t: Tables, m: Message, meta: Metadata, now: int)
    ensures var t', r := InsertMessage(t, m, meta, now), m.roomId;
      && RoomCiphertexts(t') == WithText(RoomCiphertexts(t), r, meta.roomNameCiphertext)
      && RoomStamps(t') == WithStamp(RoomStamps(t), r, meta.roomDirectoryUpdatedAt)
  {
    var t', r, key := InsertMessage(t, m, meta, now), m.roomId, EffectiveRoomKey(m, meta);
    var row := MergeRoom(t.rooms, m, key, meta, now);
    assert t'.rooms == t.rooms[r := row];
    MergedRoom(t.rooms, m, key, meta, now);
    hide InsertMessage, MergeRoom, RoomCiphertexts, RoomStamps, Blank, EffectiveRoomKey, WithText, WithStamp;
    RoomNameSet(t, t', r, row, meta.roomNameCiphertext);
    RoomTimeSet(t, t', r, row, meta.roomDirectoryUpdatedAt);
  }

  // ---- any sequence of incremental saves ----

  /** The directory texts a save may carry, and whose entry each is. */
  datatype TextColumn = UserKey | UserName | RoomName

  datatype StampColumn = UserKeyTime | UserTime | RoomTime

  function TextOwner(c: TextColumn, x: Addition): string {
    if c == RoomName then x.m.roomId else x.m.userId
  }

  function TextOf(c: TextColumn, x: Addition): string {
    match c
    case UserKey => x.meta.userPublicKey
    case UserName => x.meta.usernameCiphertext
    case RoomName => x.meta.roomNameCiphertext
  }

  function Texts(c: TextColumn, l: LoadedState): map<string, string> {
    match c
    case UserKey => l.userPubKeys
    case UserName => l.usernameCiphertexts
    case RoomName => l.roomNameCiphertexts
  }

  function StampOwner(c: StampColumn, x: Addition): string {
    if c == RoomTime then x.m.roomId else x.m.userId
  }

  function StampOf(c: StampColumn, x: Addition): int {
    match c
    case UserKeyTime => x.meta.userPublicKeyUpdatedAt
    case UserTime => x.meta.userDirectoryUpdatedAt
    case RoomTime => x.meta.roomDirectoryUpdatedAt
  }

  function Stamps(c: StampColumn, l: LoadedState): map<string, int> {
    match c
    case UserKeyTime => l.userPubKeysUpdatedAt
    case UserTime => l.userDirectoryUpdatedAt
    case RoomTime => l.roomDirectoryUpdatedAt
  }

  /** Every save of the sequence succeeds. */
  predicate AllSucceed(t: Tables, xs: seq<Addition>) {
    forall k | 0 <= k < |xs| :: Insertable(InsertAll(t, xs[..k]), xs[k].m, xs[k].meta)
  }

  lemma {:induction false} AllButLast(t: Tables, xs: seq<Addition>)
    requires AllSucceed(t, xs) && xs != []
    ensures var rest, x := xs[..|xs| - 1], xs[|xs| - 1];
      AllSucceed(t, rest) && Insertable(InsertAll(t, rest), x.m, x.meta) && xs == rest + [x]
      && InsertAll(t, xs) == InsertMessage(InsertAll(t, rest), x.m, x.meta, x.now)
  {
    hide Insertable, InsertMessage;
    var rest := xs[..|xs| - 1];
    forall k | 0 <= k < |rest| ensures Insertable(InsertAll(t, rest[..k]), rest[k].m, rest[k].meta) {
      assert rest[..k] == xs[..k];
    }
  }

  lemma {:induction false} AllConsistent(t: Tables, xs: seq<Addition>)
    requires Consistent(t) && AllSucceed(t, xs)
    ensures Consistent(InsertAll(t, xs))
  {
    hide Insertable, InsertMessage, Consistent, AllSucceed;
    if xs != [] {
      AllButLast(t, xs);
      AllConsistent(t, xs[..|xs| - 1]);
      InsertConsistent(InsertAll(t, xs[..|xs| - 1]), xs[|xs| - 1].m, xs[|xs| - 1].meta, xs[|xs| - 1].now);
    }
  }

  /** The last save of a sequence as a step of the directory. */
  lemma {:induction false} LastStep(t: Tables, xs: seq<Addition>)
    requires Consistent(t) && AllSucceed(t, xs) && xs != []
    ensures var rest, x := xs[..|xs| - 1], xs[|xs| - 1];
      && AllSucceed(t, rest) && xs == rest + [x] && Consistent(InsertAll(t, rest)) && Consistent(InsertAll(t, xs))
      && var before, after := Loaded(InsertAll(t, rest)), Loaded(InsertAll(t, xs));
      && (forall c :: Texts(c, after) == WithText(Texts(c, before), TextOwner(c, x), TextOf(c, x)))
      && (forall c :: Stamps(c, after) == WithStamp(Stamps(c, before), StampOwner(c, x), StampOf(c, x)))
      && after.users == before.users[x.m.userId := TrimSpace(x.m.username)]
  {
    hide Insertable, InsertMessage, Consistent, AllSucceed, Loaded, WithText, WithStamp, TrimSpace, InsertAll;
    var rest, x := xs[..|xs| - 1], xs[|xs| - 1];
    AllConsistent(t, xs);
    AllButLast(t, xs);
    AllConsistent(t, rest);
    InsertedEntries(InsertAll(t, rest), x.m, x.meta, x.now);
  }

  /** Save `k` of the sequence carries a text for the owner, and is the last one that does. */
  ghost predicate LastText(xs: seq<Addition>, c: TextColumn, owner: string, k: int) {
    && 0 <= k < |xs| && TextOwner(c, xs[k]) == owner && !Blank(TextOf(c, xs[k]))
    && forall j | k < j < |xs| && TextOwner(c, xs[j]) == owner :: Blank(TextOf(c, xs[j]))
  }

  ghost predicate NoText(xs: seq<Addition>, c: TextColumn, owner: string) {
    forall k | 0 <= k < |xs| && TextOwner(c, xs[k]) == owner :: Blank(TextOf(c, xs[k]))
  }

  lemma {:induction false} LastTextOfMore(xs: seq<Addition>, x: Addition, c: TextColumn, owner: string)
    ensures var more, carries := xs + [x], TextOwner(c, x) == owner && !Blank(TextOf(c, x));
      && (forall k :: LastText(more, c, owner, k) <==> if carries then k == |xs| else LastText(xs, c, owner, k))
      && (NoText(more, c, owner) <==> NoText(xs, c, owner) && !carries)
  {
    hide Blank, TextOwner, TextOf;
    var more := xs + [x];
    assert more[|xs|] == x && forall j | 0 <= j < |xs| :: more[j] == xs[j];
  }

  /** THE LAST ONE COUNTS. After any sequence of incremental saves, the text that loads for a user or a
      room is the last one that was not blank; without any it is what it was before. */
  lemma {:induction false} LastTextLoads(t: Tables, xs: seq<Addition>, c: TextColumn, owner: string)
    requires Consistent(t) && AllSucceed(t, xs)
    ensures Consistent(InsertAll(t, xs))
    ensures var before, after := Texts(c, Loaded(t)), Texts(c, Loaded(InsertAll(t, xs)));
      && (forall k | LastText(xs, c, owner, k) :: owner in after && after[owner] == TextOf(c, xs[k]))
      && (NoText(xs, c, owner) ==>
            (owner in after <==> owner in before) && (owner in before ==> after[owner] == before[owner]))
  {
    hide Consistent, AllSucceed, Loaded, InsertAll, Blank, Texts, TextOf, TextOwner;
    if xs == [] {
      InsertNothing(t);
    } else {
      var rest, x := xs[..|xs| - 1], xs[|xs| - 1];
      LastStep(t, xs);
      LastTextLoads(t, rest, c, owner);
      LastTextOfMore(rest, x, c, owner);
      assert forall k | LastText(rest, c, owner, k) :: rest[k] == xs[k];
      hide LastText, NoText;
      var middle := Texts(c, Loaded(InsertAll(t, rest)));
      assert Texts(c, Loaded(InsertAll(t, xs))) == WithText(middle, TextOwner(c, x), TextOf(c, x));
    }
  }

  lemma {:induction false} InsertNothing(t: Tables)
    ensures InsertAll(t, []) == t
  {
  }

  /** THE LATEST ONE COUNTS. The timestamp that loads for a user or a room is the greatest of those saved
      and of the one before. */
  lemma {:induction false} LatestStampLoads(t: Tables, xs: seq<Addition>, c: StampColumn, owner: string)
    requires Consistent(t) && AllSucceed(t, xs)
    ensures Consistent(InsertAll(t, xs))
    ensures var before, after := Stamps(c, Loaded(t)), Stamps(c, Loaded(InsertAll(t, xs)));
      && Lookup(before, owner, 0) <= Lookup(after, owner, 0)
      && (forall k | 0 <= k < |xs| && StampOwner(c, xs[k]) == owner :: StampOf(c, xs[k]) <= Lookup(after, owner, 0))
      && (Lookup(after, owner, 0) == Lookup(before, owner, 0)
          || exists k :: 0 <= k < |xs| && StampOwner(c, xs[k]) == owner && StampOf(c, xs[k]) == Lookup(after, owner, 0))
  {
    hide Consistent, AllSucceed, Loaded, InsertAll, Stamps, StampOf, StampOwner;
    if xs == [] {
      InsertNothing(t);
    } else {
      LastStep(t, xs);
      var rest := xs[..|xs| - 1];
      LatestStampLoads(t, rest, c, owner);
      var middle := Lookup(Stamps(c, Loaded(InsertAll(t, rest))), owner, 0);
      if middle != Lookup(Stamps(c, Loaded(t)), owner, 0) {
        var k :| 0 <= k < |rest| && StampOwner(c, rest[k]) == owner && StampOf(c, rest[k]) == middle;
        assert xs[k] == rest[k];
      }
    }
  }

  ghost predicate LastBy(xs: seq<Addition>, u: string, k: int) {
    0 <= k < |xs| && xs[k].m.userId == u && forall j | k < j < |xs| :: xs[j].m.userId != u
  }

  ghost predicate NoneBy(xs: seq<Addition>, u: string) {
    forall k | 0 <= k < |xs| :: xs[k].m.userId != u
  }

  lemma {:induction false} LastByOfMore(xs: seq<Addition>, x: Addition, u: string)
    ensures forall k :: LastBy(xs + [x], u, k) <==> if x.m.userId == u then k == |xs| else LastBy(xs, u, k)
    ensures NoneBy(xs + [x], u) <==> NoneBy(xs, u) && x.m.userId != u
  {
    var more := xs + [x];
    assert more[|xs|] == x && forall j | 0 <= j < |xs| :: more[j] == xs[j];
  }

  /** The name that loads for an author is the one on the last message saved. */
  lemma {:induction false} LastNameLoads(t: Tables, xs: seq<Addition>, u: string)
    requires Consistent(t) && AllSucceed(t, xs)
    ensures Consistent(InsertAll(t, xs))
    ensures var before, after := Loaded(t).users, Loaded(InsertAll(t, xs)).users;
      && (forall k | LastBy(xs, u, k) :: u in after && after[u] == TrimSpace(xs[k].m.username))
      && (NoneBy(xs, u) ==> (u in after <==> u in before) && (u in before ==> after[u] == before[u]))
  {
    hide Consistent, AllSucceed, Loaded, InsertAll, TrimSpace;
    if xs == [] {
      InsertNothing(t);
    } else {
      var rest := xs[..|xs| - 1];
      LastStep(t, xs);
      LastNameLoads(t, rest, u);
      LastByOfMore(rest, xs[|xs| - 1], u);
      assert forall k | LastBy(rest, u, k) :: rest[k] == xs[k];
      hide LastBy, NoneBy, Texts, Stamps, WithText, WithStamp;
    }
  }

  // ---- rooms after incremental saves ----

  ghost predicate LoadsBefore(l: LoadedState, x: string, y: string) {
    exists p, q :: 0 <= p < q < |l.rooms| && l.rooms[p] == x && l.rooms[q] == y
  }

  /** The row of the first room sorts before the other's. */
  predicate NumberedBefore(x: RoomRow, y: RoomRow) {
    || x.roomOrder < y.roomOrder
    || (x.roomOrder == y.roomOrder && x.updatedAt < y.updatedAt)
    || (x.roomOrder == y.roomOrder && x.updatedAt == y.updatedAt && Less(x.roomKey, y.roomKey))
  }

  lemma {:induction false} LoadsBeforeExactly(t: Tables, a: string, b: string)
    requires Consistent(t) && a in t.rooms && b in t.rooms
    ensures LoadsBefore(Loaded(t), t.rooms[a].roomKey, t.rooms[b].roomKey) <==> NumberedBefore(t.rooms[a], t.rooms[b])
  {
    hide Less;
    var x := RoomLoads(t, a);
    var y := RoomLoads(t, b);
    LoadsByNumber(t, x, y, a, b);
    forall p, q | 0 <= p < q < |Loaded(t).rooms| && Loaded(t).rooms[p] == t.rooms[a].roomKey
        && Loaded(t).rooms[q] == t.rooms[b].roomKey
      ensures NumberedBefore(t.rooms[a], t.rooms[b])
    {
      LoadsByNumber(t, p, q, a, b);
    }
    hide Loaded;
  }

  lemma {:induction false} RoomLoads(t: Tables, a: string) returns (p: nat)
    requires Consistent(t) && a in t.rooms
    ensures p < |Loaded(t).rooms| && Loaded(t).rooms[p] == t.rooms[a].roomKey
  {
    RoomBeforeIsOrder();
    hide RoomBefore;
    var keys := RoomOrder(t);
    assert RoomKeyOf(t, a) in Elements(keys);
    p :| p < |keys| && keys[p] == RoomKeyOf(t, a);
  }

  /** THE ROOMS AFTER AN INCREMENTAL SAVE. The message's room loads under the key of the metadata, or
      under its ID if that is blank; all other rooms under theirs. Two rooms stored before keep their
      order, unless one is the message's and both have the same number. The message's room counts as saved
      now; a new one comes in at number 0. */
  lemma {:induction false} InsertedRooms(t: Tables, m: Message, meta: Metadata, now: int)
    requires Consistent(t) && Insertable(t, m, meta) && Consistent(InsertMessage(t, m, meta, now))
    ensures var t' := InsertMessage(t, m, meta, now);
      var key := if Blank(meta.roomKey) then m.roomId else TrimSpace(meta.roomKey);
      && t'.rooms.Keys == t.rooms.Keys + {m.roomId}
      && (forall a | a in t'.rooms :: t'.rooms[a].roomKey == if a == m.roomId then key else t.rooms[a].roomKey)
      && (forall a, b | a in t.rooms && b in t.rooms
            && ((a != m.roomId && b != m.roomId) || t.rooms[a].roomOrder != t.rooms[b].roomOrder) ::
            LoadsBefore(Loaded(t'), t'.rooms[a].roomKey, t'.rooms[b].roomKey)
            <==> LoadsBefore(Loaded(t), t.rooms[a].roomKey, t.rooms[b].roomKey))
      && (forall b | b in t.rooms && b != m.roomId ::
            LoadsBefore(Loaded(t'), key, t.rooms[b].roomKey)
            <==> NumberedBefore(RoomRow(key, None, 0, if m.roomId in t.rooms then t.rooms[m.roomId].roomOrder else 0,
                                        now), t.rooms[b]))
  {
    var t' := InsertMessage(t, m, meta, now);
    hide Less, Insertable, Consistent, Loaded, Blank, TrimSpace, MergeUser, NullableText, LoadsBefore;
    forall a, b | a in t'.rooms && b in t'.rooms
      ensures LoadsBefore(Loaded(t'), t'.rooms[a].roomKey, t'.rooms[b].roomKey)
          <==> NumberedBefore(t'.rooms[a], t'.rooms[b])
    {
      LoadsBeforeExactly(t', a, b);
    }
    forall a, b | a in t.rooms && b in t.rooms
      ensures LoadsBefore(Loaded(t), t.rooms[a].roomKey, t.rooms[b].roomKey) <==> NumberedBefore(t.rooms[a], t.rooms[b])
    {
      LoadsBeforeExactly(t, a, b);
    }
  }

  /** No two rooms have the same number, as after every full save. */
  ghost predicate NumbersApart(t: Tables) {
    forall a, b | a in t.rooms && b in t.rooms && t.rooms[a].roomOrder == t.rooms[b].roomOrder :: a == b
  }

  lemma {:induction false} SavedNumbersApart(s: Snapshot, env: SaveEnv, names: seq<string>, t: Tables)
    requires DistinctRoomIds(s, env) && RoomEnumeration(s, names)
    requires t.rooms == UpsertRooms(map[], RoomEntries(s, env, names))
    ensures NumbersApart(t)
  {
    hide RoomIdOf, UpsertRooms, AllRooms, DistinctRoomIds;
    RoomsStoredAll(s, env, names, t.rooms);
  }

  /** The messages saved are in rooms that are stored, under their keys. */
  predicate InKnownRooms(t: Tables, xs: seq<Addition>) {
    forall k | 0 <= k < |xs| ::
      xs[k].m.roomId in t.rooms && EffectiveRoomKey(xs[k].m, xs[k].meta) == t.rooms[xs[k].m.roomId].roomKey
  }

  /** ROOMS STAY IN ORDER. Incremental saves into rooms that are stored leave the list of rooms as it was. */
  lemma {:induction false} RoomsStay(t: Tables, xs: seq<Addition>)
    requires Consistent(t) && NumbersApart(t) && AllSucceed(t, xs) && InKnownRooms(t, xs)
    ensures Consistent(InsertAll(t, xs)) && Loaded(InsertAll(t, xs)).rooms == Loaded(t).rooms
  {
    hide Consistent, AllSucceed, Loaded, InsertAll, EffectiveRoomKey, InsertMessage, RoomOrder;
    KnownRoomsSame(t, xs);
    AllConsistent(t, xs);
    SameNumbersSameRooms(t, InsertAll(t, xs));
  }

  lemma {:induction false} KnownRoomsSame(t: Tables, xs: seq<Addition>)
    requires InKnownRooms(t, xs)
    ensures var t' := InsertAll(t, xs);
      t'.rooms.Keys == t.rooms.Keys && forall a | a in t.rooms ::
        t'.rooms[a].roomKey == t.rooms[a].roomKey && t'.rooms[a].roomOrder == t.rooms[a].roomOrder
  {
    hide EffectiveRoomKey, MergeUser, NullableText, Prefer;
    if xs != [] {
      KnownRoomsSame(t, xs[..|xs| - 1]);
    }
  }

  lemma {:induction false} RoomOrderIs(t: Tables)
    ensures Ascending(RoomOrder(t), RoomBefore)
    ensures Elements(RoomOrder(t)) == set id | id in t.rooms :: RoomKeyOf(t, id)
  {
    hide RoomBefore;
    RoomBeforeIsOrder();
  }

  lemma {:induction false} OrderedRooms(t: Tables)
    ensures var keys := RoomOrder(t);
      && (forall k | 0 <= k < |keys| :: keys[k].id in t.rooms && keys[k] == RoomKeyOf(t, keys[k].id))
      && (forall id | id in t.rooms :: exists k :: 0 <= k < |keys| && keys[k].id == id)
      && (NumbersApart(t) ==> forall j, k | 0 <= j < k < |keys| :: keys[j].order < keys[k].order)
  {
    hide RoomBefore, RoomOrder;
    RoomOrderIs(t);
    var keys := RoomOrder(t);
    forall k | 0 <= k < |keys| ensures keys[k].id in t.rooms && keys[k] == RoomKeyOf(t, keys[k].id) {
      assert keys[k] in Elements(keys);
    }
    forall id | id in t.rooms ensures exists k :: 0 <= k < |keys| && keys[k].id == id {
      assert RoomKeyOf(t, id) in Elements(keys);
    }
    if NumbersApart(t) {
      forall j, k | 0 <= j < k < |keys| ensures keys[j].order < keys[k].order {
        assert RoomBefore(keys[j], keys[k]);
        NotBefore(keys[j], keys[k]);
      }
    }
  }

  lemma {:induction false} NotBefore(a: RoomKey, b: RoomKey)
    requires RoomBefore(a, b)
    ensures a.order <= b.order && a != b
  {
    LessIrreflexive(a.key);
    LessIrreflexive(a.id);
    hide Less;
  }

  lemma {:induction false} SameNumbersSameRooms(t: Tables, u: Tables)
    requires Consistent(t) && Consistent(u) && NumbersApart(t) && u.rooms.Keys == t.rooms.Keys
    requires forall a | a in t.rooms ::
        u.rooms[a].roomKey == t.rooms[a].roomKey && u.rooms[a].roomOrder == t.rooms[a].roomOrder
    ensures Loaded(u).rooms == Loaded(t).rooms
  {
    hide Consistent, RoomOrder, NumbersApart, RoomBefore;
    OrderedRooms(t);
    var keys := RoomOrder(t);
    MovedOrder(u, keys, seq(|keys|, k requires 0 <= k < |keys| => RoomKeyOf(u, keys[k].id)));
  }

  lemma {:induction false} MovedOrder(u: Tables, keys: seq<RoomKey>, moved: seq<RoomKey>)
    requires |moved| == |keys| && forall k | 0 <= k < |keys| ::
        keys[k].id in u.rooms && moved[k] == RoomKeyOf(u, keys[k].id) && moved[k].order == keys[k].order
    requires forall id | id in u.rooms :: exists k :: 0 <= k < |keys| && keys[k].id == id
    requires forall j, k | 0 <= j < k < |keys| :: keys[j].order < keys[k].order
    ensures RoomOrder(u) == moved
  {
    MovedPlaces(u, keys, moved);
    hide *;
    MovedElements(u, moved);
    MovedAscending(moved);
    RoomBeforeIsOrder();
    RoomOrderIs(u);
    AscendingUnique(moved, RoomOrder(u), RoomBefore) by { PartOfTotal(RoomBefore); }
  }

  lemma PartOfTotal<T(!new)>(lt: (T, T) -> bool)
    requires TotalOrder(lt)
    ensures PartialOrder(lt)
  {
  }

  lemma {:induction false} MovedPlaces(u: Tables, keys: seq<RoomKey>, moved: seq<RoomKey>)
    requires |moved| == |keys| && forall k | 0 <= k < |keys| ::
        keys[k].id in u.rooms && moved[k] == RoomKeyOf(u, keys[k].id) && moved[k].order == keys[k].order
    requires forall id | id in u.rooms :: exists k :: 0 <= k < |keys| && keys[k].id == id
    requires forall j, k | 0 <= j < k < |keys| :: keys[j].order < keys[k].order
    ensures forall k | 0 <= k < |moved| :: moved[k].id in u.rooms && moved[k] == RoomKeyOf(u, moved[k].id)
    ensures forall id | id in u.rooms :: exists k :: 0 <= k < |moved| && moved[k].id == id
    ensures forall j, k | 0 <= j < k < |moved| :: moved[j].order < moved[k].order
  {
    forall id | id in u.rooms ensures exists k :: 0 <= k < |moved| && moved[k].id == id {
      var k :| 0 <= k < |keys| && keys[k].id == id;
      assert moved[k].id == id;
    }
    forall j, k | 0 <= j < k < |moved| ensures moved[j].order < moved[k].order {
      assert keys[j].order < keys[k].order;
    }
  }

  lemma {:induction false} MovedElements(u: Tables, moved: seq<RoomKey>)
    requires forall k | 0 <= k < |moved| :: moved[k].id in u.rooms && moved[k] == RoomKeyOf(u, moved[k].id)
    requires forall id | id in u.rooms :: exists k :: 0 <= k < |moved| && moved[k].id == id
    ensures Elements(moved) == set id | id in u.rooms :: RoomKeyOf(u, id)
  {
    forall key ensures key in Elements(moved) <==> key in set id | id in u.rooms :: RoomKeyOf(u, id) {
      if id :| id in u.rooms && RoomKeyOf(u, id) == key {
        var k :| 0 <= k < |moved| && moved[k].id == id;
        assert moved[k] == key;
      }
    }
  }

  lemma {:induction false} MovedAscending(moved: seq<RoomKey>)
    requires forall j, k | 0 <= j < k < |moved| :: moved[j].order < moved[k].order
    ensures Ascending(moved, RoomBefore)
  {
    hide Less;
  }
}
