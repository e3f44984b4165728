/** Round trip: what `Load` reads after a full save is the snapshot, sorted and with blank text read
    as empty. */
module StoreRoundTrip {
  import opened ChatTypes
  import opened Text
  import opened Sorting
  import opened StoreSchema
  import opened StoreSpec

  /** Where the guard suppresses a write, the row and the snapshot do not disagree between NULL and -1
      in an integer column. Holds for settled messages whose reply target never changes
      (`StoreRuns.SettledUnconflated`). */
  ghost predicate Unconflated(prior: Tables, ms: set<Message>) {
    forall m | m in ms && m.id in prior.messages && !Differs(prior.messages[m.id], FullRow(m)) ::
      !RowsConflated(prior.messages[m.id], FullRow(m))
  }

  /** The message as a full save gives it back. */
  function Restored(m: Message, username: string): Message {
    Unblank(m).(encryptedMessage := m.encryptedMessage, username := username)
  }

  function Clean<V>(m: map<string, V>): map<string, V> {
    map k | k in m && TrimSpace(k) == k && k != "" :: m[k]
  }

  function Present(m: map<string, string>): map<string, string> {
    map k | k in m && !Blank(m[k]) :: m[k]
  }

  /** Every author is named without surrounding whitespace, as the server does. */
  ghost predicate Attributed(s: Snapshot) {
    forall room, i | room in s.messages && 0 <= i < |s.messages[room]| ::
      !Blank(s.messages[room][i].userId) && TrimSpace(s.messages[room][i].userId) == s.messages[room][i].userId
  }

  // ---- rooms ----

  lemma {:induction false} IdsDiffer(s: Snapshot, env: SaveEnv, names: seq<string>, i: nat, j: nat)
    requires i < j < |names| && DistinctRoomIds(s, env) && Distinct(names) && Elements(names) == AllRooms(s)
    ensures RoomIdOf(s, env, names[i]) != RoomIdOf(s, env, names[j])
  {
    hide RoomIdOf, AllRooms;
    assert names[i] in Elements(names) && names[j] in Elements(names);
  }

  /** The first `n` enumerated rooms are stored under their IDs, in their places, and nothing else. */
  ghost predicate Stored(s: Snapshot, env: SaveEnv, names: seq<string>, n: nat, rooms: map<string, RoomRow>)
    requires n <= |names|
  {
    && (forall id | id in rooms :: exists k :: 0 <= k < n && id == RoomIdOf(s, env, names[k]))
    && forall k | 0 <= k < n ::
         RoomIdOf(s, env, names[k]) in rooms && rooms[RoomIdOf(s, env, names[k])] == RoomRowFor(s, env, names[k], k)
  }

  lemma {:induction false} OneMoreStored(s: Snapshot, env: SaveEnv, names: seq<string>, n: nat,
        rooms: map<string, RoomRow>)
    requires n < |names| && Stored(s, env, names, n, rooms)
    requires forall k | 0 <= k < n :: RoomIdOf(s, env, names[k]) != RoomIdOf(s, env, names[n])
    ensures Stored(s, env, names, n + 1, rooms[RoomIdOf(s, env, names[n]) := RoomRowFor(s, env, names[n], n)])
  {
    hide RoomIdOf, RoomRowFor;
    var more := rooms[RoomIdOf(s, env, names[n]) := RoomRowFor(s, env, names[n], n)];
    forall id | id in more ensures exists k :: 0 <= k < n + 1 && id == RoomIdOf(s, env, names[k]) {
      if id in rooms {
        var k :| 0 <= k < n && id == RoomIdOf(s, env, names[k]);
      }
    }
  }

  /** Each enumerated room is stored under its ID, in its place; nothing else is stored. */
  lemma {:induction false} RoomsStored(s: Snapshot, env: SaveEnv, names: seq<string>, n: nat)
    requires n <= |names| && DistinctRoomIds(s, env) && Distinct(names) && Elements(names) == AllRooms(s)
    ensures Stored(s, env, names, n, UpsertRooms(map[], RoomEntries(s, env, names)[..n]))
  {
    hide RoomIdOf, RoomRowFor, AllRooms, DistinctRoomIds, Distinct;
    var entries := RoomEntries(s, env, names);
    if n > 0 {
      RoomsStored(s, env, names, n - 1);
      assert entries[..n][..n - 1] == entries[..n - 1];
      forall k | 0 <= k < n - 1 ensures RoomIdOf(s, env, names[k]) != RoomIdOf(s, env, names[n - 1]) {
        IdsDiffer(s, env, names, k, n - 1);
      }
      hide Stored, RoomEntries;
      OneMoreStored(s, env, names, n - 1, UpsertRooms(map[], entries[..n - 1]));
    }
  }

  lemma RoomsStoredAll(s: Snapshot, env: SaveEnv, names: seq<string>, rooms: map<string, RoomRow>)
    requires DistinctRoomIds(s, env) && RoomEnumeration(s, names)
    requires rooms == UpsertRooms(map[], RoomEntries(s, env, names))
    ensures rooms.Keys == (set k | 0 <= k < |names| :: RoomIdOf(s, env, names[k]))
    ensures forall k | 0 <= k < |names| :: rooms[RoomIdOf(s, env, names[k])] == RoomRowFor(s, env, names[k], k)
  {
    hide RoomIdOf, RoomRowFor, UpsertRooms, AllRooms, DistinctRoomIds;
    RoomsStored(s, env, names, |names|);
    assert RoomEntries(s, env, names)[..|names|] == RoomEntries(s, env, names);
  }

  /** Room names come out trimmed and non-blank. */
  lemma {:induction false} RoomNamesTidy(rooms: seq<string>)
    ensures forall name | name in RoomNames(rooms) :: TrimSpace(name) == name != ""
  {
    hide TrimSpace;
    if rooms != [] {
      RoomNamesTidy(rooms[..|rooms| - 1]);
      TrimTwice(rooms[|rooms| - 1]);
    }
  }

  lemma SavedTidy(s: Snapshot, env: SaveEnv, names: seq<string>, t: Tables)
    requires Storable(s, env) && RoomEnumeration(s, names) && t.rooms == UpsertRooms(map[], RoomEntries(s, env, names))
    ensures Tidy(t)
  {
    hide TrimSpace;
    hide RoomIdOf;
    hide UpsertRooms;
    RoomsStoredAll(s, env, names, t.rooms);
    RoomNamesTidy(s.rooms);
    forall k | 0 <= k < |names| ensures TrimSpace(names[k]) == names[k] != "" {
      assert names[k] in Elements(names);
      assert names[k] in RoomNames(s.rooms) || names[k] in s.messages;
    }
  }

  /** Rooms load in the order of the save. */
  lemma RoomsInOrder(s: Snapshot, env: SaveEnv, names: seq<string>, t: Tables)
    requires DistinctRoomIds(s, env) && RoomEnumeration(s, names)
    requires t.rooms == UpsertRooms(map[], RoomEntries(s, env, names))
    ensures RoomKeyNames(RoomOrder(t)) == names
  {
    hide RoomIdOf;
    hide UpsertRooms;
    hide RoomEnumeration;
    RoomsStoredAll(s, env, names, t.rooms);
    var keys := seq(|names|, k requires 0 <= k < |names| => RoomKeyOf(t, RoomIdOf(s, env, names[k])));
    KeysInPlace(s, env, names, t, keys);
    hide RoomRowFor, RoomBefore;
    RoomBeforeIsOrder();
    SortSetUnique(keys, RoomBefore);
    assert RoomOrder(t) == keys;
  }

  lemma {:induction false} KeysInPlace(s: Snapshot, env: SaveEnv, names: seq<string>, t: Tables, keys: seq<RoomKey>)
    requires t.rooms.Keys == (set k | 0 <= k < |names| :: RoomIdOf(s, env, names[k]))
    requires forall k | 0 <= k < |names| :: t.rooms[RoomIdOf(s, env, names[k])] == RoomRowFor(s, env, names[k], k)
    requires |keys| == |names| && forall k | 0 <= k < |names| :: keys[k] == RoomKeyOf(t, RoomIdOf(s, env, names[k]))
    ensures Elements(keys) == (set id | id in t.rooms :: RoomKeyOf(t, id)) && Ascending(keys, RoomBefore)
    ensures forall k | 0 <= k < |keys| :: keys[k].key == names[k]
  {
    hide RoomIdOf;
    forall key ensures key in Elements(keys) <==> key in set id | id in t.rooms :: RoomKeyOf(t, id) {
      if key in Elements(keys) {
        var k :| 0 <= k < |keys| && keys[k] == key;
      }
      if id :| id in t.rooms && RoomKeyOf(t, id) == key {
        var k :| 0 <= k < |names| && id == RoomIdOf(s, env, names[k]);
        assert keys[k] == key;
      }
    }
  }

  /** The tables of a full save are consistent, whatever they were before. */
  lemma SavedConsistent(prior: Tables, s: Snapshot, env: SaveEnv, names: seq<string>, t: Tables)
    requires Storable(s, env) && Saved(prior, s, env, names, t)
    ensures Consistent(t)
  {
    hide RoomIdOf; hide UpsertRooms; hide AllRooms; hide Contents; hide UserIds; hide UserRowFor; hide RoomRowFor;
    hide FullRow; hide Filled;
    RoomsStoredAll(s, env, names, t.rooms);
    StorableIds(s, env);
    forall i, j | i in t.rooms && j in t.rooms && t.rooms[i].roomKey == t.rooms[j].roomKey ensures i == j {
      var k :| 0 <= k < |names| && i == RoomIdOf(s, env, names[k]);
      var l :| 0 <= l < |names| && j == RoomIdOf(s, env, names[l]);
      RoomRowKey(s, env, names[k], k);
      RoomRowKey(s, env, names[l], l);
    }
    forall id | id in t.messages ensures t.messages[id].roomId in t.rooms && t.messages[id].userId in t.users {
      var m :| m in Contents(s, env) && m.id == id;
      assert MessageSaved(prior, m, t);
      RowKeys(prior, m, t);
      ContentsRoom(s, env, names, m);
      assert m.userId in Authors(Contents(s, env));
    }
  }

  /** Room and author columns are written by every upsert. */
  lemma RowKeys(prior: Tables, m: Message, t: Tables)
    requires MessageSaved(prior, m, t)
    ensures t.messages[m.id].roomId == m.roomId && t.messages[m.id].userId == m.userId
  {
  }

  // ---- users ----

  /** The identity entries a listed user loads with. */
  ghost predicate UsersLoaded(s: Snapshot, l: LoadedState) {
    && l.users == (map u | u in UserIds(s) :: TrimSpace(Lookup(s.users, u, "")))
    && l.userPubKeys == Present(Clean(s.userPubKeys))
    && l.userPubKeysUpdatedAt == Positive(Clean(s.userPubKeysUpdatedAt))
    && l.usernameCiphertexts == Present(Clean(s.usernameCiphertexts))
    && l.userDirectoryUpdatedAt == Positive(Clean(s.userDirectoryUpdatedAt))
  }

  ghost predicate AgreeOn<V(!new)>(ids: set<string>, a: map<string, V>, b: map<string, V>) {
    forall u | u in ids :: (u in a <==> u in b) && (u in a ==> a[u] == b[u])
  }

  /** The listed users load with their entries, whoever else is stored. */
  ghost predicate ListedUsersLoaded(s: Snapshot, l: LoadedState) {
    && (forall u | u in UserIds(s) :: u in l.users && l.users[u] == TrimSpace(Lookup(s.users, u, "")))
    && AgreeOn(UserIds(s), l.userPubKeys, Present(Clean(s.userPubKeys)))
    && AgreeOn(UserIds(s), l.userPubKeysUpdatedAt, Positive(Clean(s.userPubKeysUpdatedAt)))
    && AgreeOn(UserIds(s), l.usernameCiphertexts, Present(Clean(s.usernameCiphertexts)))
    && AgreeOn(UserIds(s), l.userDirectoryUpdatedAt, Positive(Clean(s.userDirectoryUpdatedAt)))
  }

  lemma CleanUser(s: Snapshot, u: string)
    ensures (u in Clean(s.users) || u in Clean(s.userPubKeys) || u in Clean(s.userPubKeysUpdatedAt)
             || u in Clean(s.usernameCiphertexts) || u in Clean(s.userDirectoryUpdatedAt)) ==> u in UserIds(s)
  {
    hide Trim;
    if TrimSpace(u) == u != "" {
      assert !Blank(u);
      assert u in s.users ==> TrimSpace(u) in TrimmedOf(s.users.Keys);
      assert u in s.userPubKeys ==> TrimSpace(u) in TrimmedOf(s.userPubKeys.Keys);
      assert u in s.userPubKeysUpdatedAt ==> TrimSpace(u) in TrimmedOf(s.userPubKeysUpdatedAt.Keys);
      assert u in s.usernameCiphertexts ==> TrimSpace(u) in TrimmedOf(s.usernameCiphertexts.Keys);
      assert u in s.userDirectoryUpdatedAt ==> TrimSpace(u) in TrimmedOf(s.userDirectoryUpdatedAt.Keys);
    }
  }

  lemma ListedTrimmed(s: Snapshot, u: string)
    requires u in UserIds(s)
    ensures TrimSpace(u) == u != ""
  {
    hide Trim;
    if u in NamedAuthors(s) {
      var room, i :| room in s.messages && 0 <= i < |s.messages[room]| && !Blank(s.messages[room][i].userId)
        && u == TrimSpace(s.messages[room][i].userId);
      TrimTwice(s.messages[room][i].userId);
    } else {
      var k :| !Blank(k) && u == TrimSpace(k);
      TrimTwice(k);
    }
  }

  /** A text column holding `NullableText` of an entry loads as the entry, unless blank. */
  lemma TextColumnLoads(ids: set<string>, m: map<string, string>, column: map<string, Option<string>>)
    requires forall u | u in ids :: TrimSpace(u) == u != ""
    requires forall u | u in Clean(m) :: u in ids
    requires column == map u | u in ids :: NullableText(Lookup(m, u, ""))
    ensures NonBlank(column) == Present(Clean(m))
  {
    hide Trim;
    assert Blank("") by { BlankEmpty(); }
    forall u ensures u in NonBlank(column) <==> u in Present(Clean(m)) {
    }
  }

  lemma BlankEmpty()
    ensures Blank("")
  {
  }

  lemma StampColumnLoads(ids: set<string>, m: map<string, int>, column: map<string, int>)
    requires forall u | u in ids :: TrimSpace(u) == u != ""
    requires forall u | u in Clean(m) :: u in ids
    requires column == map u | u in ids :: Lookup(m, u, 0)
    ensures Positive(column) == Positive(Clean(m))
  {
    hide Trim;
    forall u ensures u in Positive(column) <==> u in Positive(Clean(m)) {
    }
  }

  /** The identity columns of the stored users, read off the snapshot. */
  lemma UserColumns(prior: map<string, UserRow>, s: Snapshot, authors: set<string>, t: Tables)
    requires UsersSaved(prior, s, authors, t.users) && authors <= UserIds(s)
    ensures t.users.Keys == UserIds(s)
    ensures forall u | u in t.users :: t.users[u] == UserRowFor(s, u)
  {
    hide UserIds;
    hide UserRowFor;
  }

  lemma OnlyListedRoundTrip(prior: map<string, UserRow>, s: Snapshot, authors: set<string>, t: Tables)
    requires UsersSaved(prior, s, authors, t.users) && authors <= UserIds(s)
    ensures Usernames(t) == (map u | u in UserIds(s) :: TrimSpace(Lookup(s.users, u, "")))
    ensures PublicKeys(t) == Present(Clean(s.userPubKeys))
    ensures PublicKeyStamps(t) == Positive(Clean(s.userPubKeysUpdatedAt))
    ensures UsernameCiphertexts(t) == Present(Clean(s.usernameCiphertexts))
    ensures UserStamps(t) == Positive(Clean(s.userDirectoryUpdatedAt))
  {
    hide TrimSpace, UserIds, UsersSaved, NullableText, NonBlank, Positive, Clean, Present;
    UserColumns(prior, s, authors, t);
    forall u | u in UserIds(s) ensures TrimSpace(u) == u != "" { ListedTrimmed(s, u); }
    UsernamesRoundTrip(s, t);
    CiphertextsRoundTrip(s, t);
    StampsRoundTrip(s, t);
  }

  /** Every listed user loads with the entries the snapshot has for it; if all authors are listed, the
      directories are those of the snapshot. */
  lemma UsersRoundTrip(prior: Tables, s: Snapshot, authors: set<string>, t: Tables)
    requires Consistent(t) && UsersSaved(prior.users, s, authors, t.users)
    ensures ListedUsersLoaded(s, Loaded(t)) && Loaded(t).users.Keys == UserIds(s) + authors
    ensures authors <= UserIds(s) ==> UsersLoaded(s, Loaded(t))
  {
    hide TrimSpace, UserIds, UserRowFor, NullableText, Positive, Clean, Present, Consistent, Blank, NonBlank;
    var listed := t.(users := map u | u in UserIds(s) && u in t.users :: t.users[u]);
    assert UsersSaved(prior.users, s, {}, listed.users);
    TextColumnsAgree(t, listed, UserIds(s));
    StampColumnsAgree(t, listed, UserIds(s));
    NamesAgree(t, listed, UserIds(s));
    assert Usernames(t).Keys == UserIds(s) + authors;
    hide UsersSaved, Usernames, PublicKeys, PublicKeyStamps, UsernameCiphertexts, UserStamps;
    OnlyListedRoundTrip(prior.users, s, {}, listed);
    if authors <= UserIds(s) { OnlyListedRoundTrip(prior.users, s, authors, t); }
  }

  lemma NonBlankAgree(ids: set<string>, a: map<string, Option<string>>, b: map<string, Option<string>>)
    requires AgreeOn(ids, a, b)
    ensures AgreeOn(ids, NonBlank(a), NonBlank(b))
  {
    hide Blank;
  }

  lemma PositiveAgree(ids: set<string>, a: map<string, int>, b: map<string, int>)
    requires AgreeOn(ids, a, b)
    ensures AgreeOn(ids, Positive(a), Positive(b))
  {
  }

  /** What is read of a user depends on its row only. */
  lemma TextColumnsAgree(t: Tables, u: Tables, ids: set<string>)
    requires ids <= t.users.Keys && u.users == map k | k in ids :: t.users[k]
    ensures AgreeOn(ids, PublicKeys(t), PublicKeys(u)) && AgreeOn(ids, UsernameCiphertexts(t), UsernameCiphertexts(u))
  {
    hide NonBlank;
    NonBlankAgree(ids, map k | k in t.users :: t.users[k].publicKey, map k | k in u.users :: u.users[k].publicKey);
    NonBlankAgree(ids, map k | k in t.users :: t.users[k].usernameCiphertext,
        map k | k in u.users :: u.users[k].usernameCiphertext);
  }

  lemma StampColumnsAgree(t: Tables, u: Tables, ids: set<string>)
    requires ids <= t.users.Keys && u.users == map k | k in ids :: t.users[k]
    ensures AgreeOn(ids, PublicKeyStamps(t), PublicKeyStamps(u)) && AgreeOn(ids, UserStamps(t), UserStamps(u))
  {
    hide Positive;
    PositiveAgree(ids, map k | k in t.users :: t.users[k].publicKeyUpdatedAt,
        map k | k in u.users :: u.users[k].publicKeyUpdatedAt);
    PositiveAgree(ids, map k | k in t.users :: t.users[k].directoryUpdatedAt,
        map k | k in u.users :: u.users[k].directoryUpdatedAt);
  }

  lemma NamesAgree(t: Tables, u: Tables, ids: set<string>)
    requires ids <= t.users.Keys && u.users == map k | k in ids :: t.users[k]
    ensures AgreeOn(ids, Usernames(t), Usernames(u)) && Usernames(t).Keys == t.users.Keys
  {
    hide TrimSpace;
  }

  lemma UsernamesRoundTrip(s: Snapshot, t: Tables)
    requires t.users.Keys == UserIds(s) && forall u | u in t.users :: t.users[u] == UserRowFor(s, u)
    ensures Usernames(t) == (map u | u in UserIds(s) :: TrimSpace(Lookup(s.users, u, "")))
  {
    hide TrimSpace; hide UserIds; hide NullableText;
    forall u | u in UserIds(s) ensures Usernames(t)[u] == TrimSpace(Lookup(s.users, u, "")) {
      TrimTwice(Lookup(s.users, u, ""));
    }
  }

  lemma CiphertextsRoundTrip(s: Snapshot, t: Tables)
    requires t.users.Keys == UserIds(s) && forall u | u in t.users :: t.users[u] == UserRowFor(s, u)
    requires forall u | u in UserIds(s) :: TrimSpace(u) == u != ""
    ensures PublicKeys(t) == Present(Clean(s.userPubKeys))
    ensures UsernameCiphertexts(t) == Present(Clean(s.usernameCiphertexts))
  {
    hide TrimSpace; hide UserIds; hide NullableText; hide NonBlank; hide Positive; hide Clean; hide Present;
    forall u { CleanUser(s, u); }
    TextColumnLoads(UserIds(s), s.userPubKeys, map u | u in t.users :: t.users[u].publicKey);
    TextColumnLoads(UserIds(s), s.usernameCiphertexts, map u | u in t.users :: t.users[u].usernameCiphertext);
  }

  lemma StampsRoundTrip(s: Snapshot, t: Tables)
    requires t.users.Keys == UserIds(s) && forall u | u in t.users :: t.users[u] == UserRowFor(s, u)
    requires forall u | u in UserIds(s) :: TrimSpace(u) == u != ""
    ensures PublicKeyStamps(t) == Positive(Clean(s.userPubKeysUpdatedAt))
    ensures UserStamps(t) == Positive(Clean(s.userDirectoryUpdatedAt))
  {
    hide TrimSpace; hide UserIds; hide NullableText; hide NonBlank; hide Positive; hide Clean; hide Present;
    forall u { CleanUser(s, u); }
    StampColumnLoads(UserIds(s), s.userPubKeysUpdatedAt, map u | u in t.users :: t.users[u].publicKeyUpdatedAt);
    StampColumnLoads(UserIds(s), s.userDirectoryUpdatedAt, map u | u in t.users :: t.users[u].directoryUpdatedAt);
  }

  // ---- messages ----

  lemma AuthorsListed(s: Snapshot, env: SaveEnv)
    requires Attributed(s)
    ensures Authors(Contents(s, env)) <= UserIds(s)
  {
    hide Trim;
    forall u | u in Authors(Contents(s, env)) ensures u in NamedAuthors(s) {
      var m :| m in Contents(s, env) && m.userId == u;
      var room, i :| room in s.messages && room != "" && 0 <= i < |s.messages[room]| && m == Filled(s, env, room, i);
      assert u == TrimSpace(s.messages[room][i].userId);
    }
  }

  /** One stored message loads as the snapshot's message. */
  lemma MessageRestored(prior: Tables, ms: set<Message>, t: Tables, m: Message)
    requires MessagesSaved(prior, ms, t) && Unconflated(prior, ms) && m in ms
    ensures m.id in t.messages && t.messages[m.id].userId == m.userId && t.messages[m.id].roomId == m.roomId
    ensures t.messages[m.id].createdAt == m.timestamp
    ensures LoadedMessage(t, m.id) == Restored(m, Username(t, m.userId))
  {
    hide Trim;
    hide Username;
    assert MessageSaved(prior, m, t);
    RowRoundTrip(m, Username(t, m.userId));
    if m.id in prior.messages {
      GuardedUpsertExact(m.id, prior.messages[m.id], FullRow(m), Username(t, m.userId));
    }
  }

  /** The messages filed under `name`, with identifiers filled in. */
  ghost function FiledUnder(s: Snapshot, env: SaveEnv, name: string): set<Message> {
    if name == "" || name !in s.messages then {}
    else set i | 0 <= i < |s.messages[name]| :: Filled(s, env, name, i)
  }

  /** A stored message is in the room it is filed under. */
  lemma FiledInRoom(s: Snapshot, env: SaveEnv, name: string, m: Message)
    requires Storable(s, env) && name in AllRooms(s) && m in Contents(s, env)
    ensures m.roomId == RoomIdOf(s, env, name) <==> m in FiledUnder(s, env, name)
  {
    hide RoomIdOf;
    hide Filled;
    hide RoomNames;
    var room, i :| room in s.messages && room != "" && 0 <= i < |s.messages[room]| && m == Filled(s, env, room, i);
    assert (room, i) in Places(s) && room in AllRooms(s);
    if m in FiledUnder(s, env, name) {
      var j :| 0 <= j < |s.messages[name]| && m == Filled(s, env, name, j);
      assert (name, j) in Places(s);
    }
  }

  lemma FiledIsContent(s: Snapshot, env: SaveEnv, name: string)
    ensures FiledUnder(s, env, name) <= Contents(s, env)
  {
    hide Filled;
  }

  ghost function KeysOf(ms: set<Message>): set<MessageKey> {
    set m | m in ms :: MessageKey(m.timestamp, m.id)
  }

  /** The rows of a room are those of the messages filed under it. */
  lemma RoomRows(prior: Tables, s: Snapshot, env: SaveEnv, names: seq<string>, t: Tables, name: string)
    requires Storable(s, env) && Saved(prior, s, env, names, t) && Consistent(t)
    requires Unconflated(prior, Contents(s, env)) && name in names
    ensures MessageKeysIn(t, name) == KeysOf(FiledUnder(s, env, name))
  {
    hide RoomIdOf; hide RoomRowFor; hide UpsertRooms; hide UsersSaved; hide LoadedMessage; hide Storable;
    hide Restored; hide Contents; hide FiledUnder; hide AllRooms; hide RowsConflated; hide MessageSaved;
    StorableIds(s, env);
    RoomsStoredAll(s, env, names, t.rooms);
    EnumeratedRoom(s, names, name);
    FiledIsContent(s, env, name);
    var k :| 0 <= k < |names| && names[k] == name;
    RoomRowKey(s, env, name, k);
    forall m | m in Contents(s, env)
      ensures m.id in t.messages && MessageKeyOf(t, m.id) == MessageKey(m.timestamp, m.id)
      ensures t.rooms[t.messages[m.id].roomId].roomKey == name <==> m in FiledUnder(s, env, name)
    {
      MessageRestored(prior, Contents(s, env), t, m);
      FiledInRoom(s, env, name, m);
    }
    forall key ensures key in MessageKeysIn(t, name) <==> key in KeysOf(FiledUnder(s, env, name)) {
      if key in MessageKeysIn(t, name) {
        var m :| m in Contents(s, env) && m.id == key.id;
      }
    }
  }

  lemma StorableIds(s: Snapshot, env: SaveEnv)
    requires Storable(s, env)
    ensures DistinctRoomIds(s, env)
  {
  }

  lemma EnumeratedRoom(s: Snapshot, names: seq<string>, name: string)
    requires RoomEnumeration(s, names) && name in names
    ensures name in AllRooms(s)
  {
    assert name in Elements(names);
  }

  lemma EnumeratedNonEmpty(s: Snapshot, names: seq<string>, name: string)
    requires RoomEnumeration(s, names) && name in names
    ensures name != ""
  {
    assert name in Elements(names);
    RoomNamesTidy(s.rooms);
  }

  lemma RoomRowKey(s: Snapshot, env: SaveEnv, name: string, k: int)
    ensures RoomRowFor(s, env, name, k).roomKey == name
  {
  }

  // ---- the main theorem ----

  /** A loaded room: the messages filed under it, each once, oldest first. */
  ghost predicate RoomLoaded(s: Snapshot, env: SaveEnv, name: string, l: LoadedState) {
    && name in l.messages
    && OldestFirst(l.messages[name])
    && |l.messages[name]| == (if name in s.messages then |s.messages[name]| else 0)
    && Elements(l.messages[name]) == set m | m in FiledUnder(s, env, name) :: Restored(m, Lookup(l.users, m.userId, ""))
  }

  lemma RoomRoundTrip(prior: Tables, s: Snapshot, env: SaveEnv, names: seq<string>, t: Tables, name: string)
    requires Storable(s, env) && Saved(prior, s, env, names, t) && Consistent(t)
    requires Unconflated(prior, Contents(s, env)) && name in names
    ensures var ms := RoomMessages(t, name);
      && OldestFirst(ms) && |ms| == (if name in s.messages then |s.messages[name]| else 0)
      && Elements(ms) == set m | m in FiledUnder(s, env, name) :: Restored(m, Username(t, m.userId))
  {
    hide RoomIdOf, RoomEntries, UpsertRooms, UsersSaved, LoadedMessage, Storable, Username;
    hide Restored; hide Contents; hide FiledUnder; hide AllRooms; hide RowsConflated; hide MessagesSaved;
    hide MessageBefore; hide KeysOf; hide MessageKeysIn; hide RoomEnumeration; hide LoadKeys; hide Unconflated;
    RoomRows(prior, s, env, names, t, name);
    FiledIsContent(s, env, name);
    MessageBeforeIsOrder();
    var filed := FiledUnder(s, env, name);
    forall m | m in filed ensures LoadsAs(t, m) {
      MessageRestored(prior, Contents(s, env), t, m);
    }
    SortedRestored(t, filed, SortSet(MessageKeysIn(t, name), MessageBefore));
    EnumeratedNonEmpty(s, names, name);
    FiledCount(s, env, name);
  }

  ghost predicate LoadsAs(t: Tables, m: Message) {
    && m.id in t.messages && t.messages[m.id].createdAt == m.timestamp
    && LoadedMessage(t, m.id) == Restored(m, Username(t, m.userId))
  }

  lemma SortedRestored(t: Tables, filed: set<Message>, keys: seq<MessageKey>)
    requires forall m | m in filed :: LoadsAs(t, m)
    requires Ascending(keys, MessageBefore) && Elements(keys) == KeysOf(filed)
    ensures forall k | k in keys :: k.id in t.messages
    ensures OldestFirst(LoadKeys(t, keys)) && |LoadKeys(t, keys)| == |keys|
    ensures Elements(LoadKeys(t, keys)) == set m | m in filed :: Restored(m, Username(t, m.userId))
  {
    hide LoadedMessage; hide Restored; hide Username; hide MessageBefore;
    forall k | k in keys
      ensures k.id in t.messages && LoadedMessage(t, k.id).id == k.id && LoadedMessage(t, k.id).timestamp == k.createdAt
      ensures exists m :: m in filed && LoadedMessage(t, k.id) == Restored(m, Username(t, m.userId))
    {
      assert k in Elements(keys);
      var m :| m in filed && k == MessageKey(m.timestamp, m.id);
      assert LoadsAs(t, m);
      LoadedMessageKey(t, m.id);
    }
    var ms := LoadKeys(t, keys);
    forall m | m in filed ensures Restored(m, Username(t, m.userId)) in ms {
      assert MessageKey(m.timestamp, m.id) in Elements(keys);
      var i :| 0 <= i < |keys| && keys[i] == MessageKey(m.timestamp, m.id);
      assert LoadsAs(t, m) && ms[i] == LoadedMessage(t, m.id);
    }
    assert forall i | 0 <= i < |ms| :: keys[i] in keys && MessageKey(ms[i].timestamp, ms[i].id) == keys[i];
  }

  lemma LoadedMessageKey(t: Tables, id: string)
    requires id in t.messages
    ensures LoadedMessage(t, id).id == id && LoadedMessage(t, id).timestamp == t.messages[id].createdAt
  {
  }

  lemma FiledCount(s: Snapshot, env: SaveEnv, name: string)
    requires Storable(s, env) && name != ""
    ensures |KeysOf(FiledUnder(s, env, name))| == if name in s.messages then |s.messages[name]| else 0
  {
    hide RoomIdOf;
    hide Filled;
    if name in s.messages {
      var keys := seq(|s.messages[name]|, i requires 0 <= i < |s.messages[name]| =>
        MessageKey(Filled(s, env, name, i).timestamp, Filled(s, env, name, i).id));
      assert Elements(keys) == KeysOf(FiledUnder(s, env, name)) by {
        forall i | 0 <= i < |keys| ensures keys[i] in KeysOf(FiledUnder(s, env, name)) {
          assert Filled(s, env, name, i) in FiledUnder(s, env, name);
        }
        forall key | key in KeysOf(FiledUnder(s, env, name)) ensures key in keys {
          var m :| m in FiledUnder(s, env, name) && key == MessageKey(m.timestamp, m.id);
          var i :| 0 <= i < |s.messages[name]| && m == Filled(s, env, name, i);
          assert keys[i] == key;
        }
      }
      forall i, j | 0 <= i < j < |keys| ensures keys[i] != keys[j] {
        assert (name, i) in Places(s) && (name, j) in Places(s);
      }
      DistinctSize(keys);
    } else {
      assert KeysOf({}) == {};
    }
  }

  ghost predicate MessagesLoaded(s: Snapshot, env: SaveEnv, l: LoadedState) {
    l.messages.Keys == AllRooms(s) && forall name | name in AllRooms(s) :: RoomLoaded(s, env, name, l)
  }

  ghost predicate RoomsLoaded(s: Snapshot, env: SaveEnv, names: seq<string>, l: LoadedState) {
    && RoomEnumeration(s, names) && l.rooms == names
    && l.roomIDs == (map name | name in AllRooms(s) :: RoomIdOf(s, env, name))
    && RoomDirectoryLoaded(s, env, l)
  }

  ghost function SavedRoomIds(s: Snapshot, env: SaveEnv): set<string> {
    set name | name in AllRooms(s) :: RoomIdOf(s, env, name)
  }

  /** The room directory: of the rooms saved, every ciphertext that is not blank and every timestamp
      that is positive, and nothing of any other room. */
  ghost predicate RoomDirectoryLoaded(s: Snapshot, env: SaveEnv, l: LoadedState) {
    && l.roomNameCiphertexts == PresentIn(SavedRoomIds(s, env), s.roomNameCiphertexts)
    && l.roomDirectoryUpdatedAt == PositiveIn(SavedRoomIds(s, env), s.roomDirectoryUpdatedAt)
  }

  ghost function PresentIn(ids: set<string>, m: map<string, string>): map<string, string> {
    map id | id in ids && id in m && !Blank(m[id]) :: m[id]
  }

  ghost function PositiveIn(ids: set<string>, m: map<string, int>): map<string, int> {
    map id | id in ids && id in m && m[id] > 0 :: m[id]
  }

  lemma {:induction false} TextsPresent(ids: set<string>, m: map<string, string>, column: map<string, Option<string>>)
    requires column == map id | id in ids :: NullableText(Lookup(m, id, ""))
    ensures NonBlank(column) == PresentIn(ids, m)
  {
    hide Trim;
    BlankEmpty();
    hide Blank;
  }

  lemma {:induction false} StampsPositive(ids: set<string>, m: map<string, int>, column: map<string, int>)
    requires column == map id | id in ids :: Lookup(m, id, 0)
    ensures Positive(column) == PositiveIn(ids, m)
  {
  }

  lemma {:induction false} RoomDirectoryRoundTrip(s: Snapshot, env: SaveEnv, names: seq<string>, t: Tables)
    requires DistinctRoomIds(s, env) && RoomEnumeration(s, names) && Consistent(t)
    requires t.rooms == UpsertRooms(map[], RoomEntries(s, env, names))
    ensures RoomDirectoryLoaded(s, env, Loaded(t))
  {
    hide SavedRoomIds, UpsertRooms, RoomEntries, RoomEnumeration, DistinctRoomIds, NullableText, Consistent;
    RoomIdsStored(s, env, names, t);
    DirectoryColumns(SavedRoomIds(s, env), s, t);
    hide RoomCiphertexts, RoomStamps, PresentIn, PositiveIn;
  }

  lemma {:induction false} DirectoryColumns(ids: set<string>, s: Snapshot, t: Tables)
    requires t.rooms.Keys == ids
    requires forall id | id in t.rooms ::
      && t.rooms[id].roomNameCiphertext == NullableText(Lookup(s.roomNameCiphertexts, id, ""))
      && t.rooms[id].directoryUpdatedAt == Lookup(s.roomDirectoryUpdatedAt, id, 0)
    ensures RoomCiphertexts(t) == PresentIn(ids, s.roomNameCiphertexts)
    ensures RoomStamps(t) == PositiveIn(ids, s.roomDirectoryUpdatedAt)
  {
    hide NullableText, NonBlank, Positive, PresentIn, PositiveIn;
    TextsPresent(ids, s.roomNameCiphertexts, map id | id in t.rooms :: t.rooms[id].roomNameCiphertext);
    StampsPositive(ids, s.roomDirectoryUpdatedAt, map id | id in t.rooms :: t.rooms[id].directoryUpdatedAt);
  }

  /** The directory columns of the stored rooms, read off the snapshot. */
  lemma {:induction false} RoomIdsStored(s: Snapshot, env: SaveEnv, names: seq<string>, t: Tables)
    requires DistinctRoomIds(s, env) && RoomEnumeration(s, names)
    requires t.rooms == UpsertRooms(map[], RoomEntries(s, env, names))
    ensures t.rooms.Keys == SavedRoomIds(s, env)
    ensures forall id | id in t.rooms ::
      && t.rooms[id].roomNameCiphertext == NullableText(Lookup(s.roomNameCiphertexts, id, ""))
      && t.rooms[id].directoryUpdatedAt == Lookup(s.roomDirectoryUpdatedAt, id, 0)
  {
    hide RoomIdOf, UpsertRooms, AllRooms, NullableText, DistinctRoomIds;
    RoomsStoredAll(s, env, names, t.rooms);
    forall id ensures id in SavedRoomIds(s, env) <==> id in t.rooms {
      if name :| name in AllRooms(s) && id == RoomIdOf(s, env, name) {
        assert name in Elements(names);
        var k :| 0 <= k < |names| && names[k] == name;
      }
      if id in t.rooms {
        var k :| 0 <= k < |names| && id == RoomIdOf(s, env, names[k]);
        assert names[k] in Elements(names);
      }
    }
    forall id | id in t.rooms
      ensures t.rooms[id].roomNameCiphertext == NullableText(Lookup(s.roomNameCiphertexts, id, ""))
      ensures t.rooms[id].directoryUpdatedAt == Lookup(s.roomDirectoryUpdatedAt, id, 0)
    {
      var k :| 0 <= k < |names| && id == RoomIdOf(s, env, names[k]);
    }
  }

  /** ROUND TRIP. After a full save over any earlier database, `Load` returns the snapshot's rooms in
      order under their IDs with their directory, and the entries of every listed user; of users nothing
      else, if all authors are named. It returns each room's messages exactly once, oldest first, blank
      text read as empty, if and only if the guard suppressed no change between NULL and -1. */
  lemma RoundTrip(prior: Tables, s: Snapshot, env: SaveEnv, names: seq<string>, t: Tables)
    requires Storable(s, env) && Saved(prior, s, env, names, t)
    ensures Consistent(t) && Tidy(t)
    ensures RoomsLoaded(s, env, names, Loaded(t))
    ensures ListedUsersLoaded(s, Loaded(t)) && (Attributed(s) ==> UsersLoaded(s, Loaded(t)))
    ensures MessagesLoaded(s, env, Loaded(t)) <==> Unconflated(prior, Contents(s, env))
  {
    hide RoomIdOf; hide RoomRowFor; hide UpsertRooms; hide UserIds; hide Storable; hide Username; hide RoomEnumeration;
    hide Restored, Contents, FiledUnder, AllRooms, RowsConflated, MessageSaved, UsersSaved;
    hide RoomMessages; hide RoomOrder; hide TrimSpace; hide Attributed; hide MessagesSaved; hide OldestFirst;
    hide Unconflated, Tidy, Consistent, RoomNames, ListedUsersLoaded, UsersLoaded, RoomLoaded;
    SavedConsistent(prior, s, env, names, t);
    SavedTidy(s, env, names, t);
    StorableIds(s, env);
    RoomsInOrder(s, env, names, t);
    RoomKeysAre(s, env, names, t);
    RoomDirectoryRoundTrip(s, env, names, t);
    hide RoomDirectoryLoaded, SavedRoomIds, RoomCiphertexts, RoomStamps;
    UsersRoundTrip(prior, s, Authors(Contents(s, env)), t);
    if Attributed(s) { AuthorsListed(s, env); }
    var l := Loaded(t);
    if Unconflated(prior, Contents(s, env)) {
      forall name | name in AllRooms(s) ensures RoomLoaded(s, env, name, l) {
        RoomRestored(prior, s, env, names, t, name);
      }
    }
    if MessagesLoaded(s, env, l) {
      forall m | m in Contents(s, env) && m.id in prior.messages && !Differs(prior.messages[m.id], FullRow(m))
        ensures !RowsConflated(prior.messages[m.id], FullRow(m))
      {
        LoadedUnconflated(prior, s, env, names, t, m);
      }
      assert Unconflated(prior, Contents(s, env)) by { UnconflatedIf(prior, Contents(s, env)); }
    }
  }

  lemma UnconflatedIf(prior: Tables, ms: set<Message>)
    requires forall m | m in ms && m.id in prior.messages && !Differs(prior.messages[m.id], FullRow(m)) ::
      !RowsConflated(prior.messages[m.id], FullRow(m))
    ensures Unconflated(prior, ms)
  {
  }

  lemma RoomRestored(prior: Tables, s: Snapshot, env: SaveEnv, names: seq<string>, t: Tables, name: string)
    requires Storable(s, env) && Saved(prior, s, env, names, t) && Consistent(t)
    requires Unconflated(prior, Contents(s, env)) && name in names && name in RoomKeys(t)
    ensures RoomLoaded(s, env, name, Loaded(t))
  {
    hide RoomIdOf; hide Storable; hide Username; hide RoomEnumeration; hide Restored; hide Contents; hide FiledUnder;
    hide RoomMessages, MessagesSaved, OldestFirst, Unconflated, Consistent, UsersSaved, Usernames;
    RoomRoundTrip(prior, s, env, names, t, name);
    forall m | m in FiledUnder(s, env, name) ensures Lookup(Loaded(t).users, m.userId, "") == Username(t, m.userId) {
      UsernameLoaded(t, m.userId);
    }
  }

  /** A message that loads as the snapshot's was not held back by the guard at a NULL or -1. */
  lemma LoadedUnconflated(prior: Tables, s: Snapshot, env: SaveEnv, names: seq<string>, t: Tables, m: Message)
    requires Storable(s, env) && Saved(prior, s, env, names, t) && Consistent(t) && MessagesLoaded(s, env, Loaded(t))
    requires m in Contents(s, env) && m.id in prior.messages && !Differs(prior.messages[m.id], FullRow(m))
    ensures !RowsConflated(prior.messages[m.id], FullRow(m))
  {
    hide RoomIdOf; hide Storable; hide Username; hide UserIds; hide UsersSaved; hide RoomEnumeration; hide RoomMessages;
    hide Filled, RowsConflated, FullRow, LoadRow, Differs, Consistent, OldestFirst, Usernames;
    var l := Loaded(t);
    var name, i :| name in s.messages && name != "" && 0 <= i < |s.messages[name]| && m == Filled(s, env, name, i);
    assert m in FiledUnder(s, env, name) && RoomLoaded(s, env, name, l);
    var x := Restored(m, Lookup(l.users, m.userId, ""));
    assert x in Elements(l.messages[name]);
    LoadedFromRow(t, name, x);
    UsernameLoaded(t, m.userId);
    assert MessageSaved(prior, m, t);
    RowKeys(prior, m, t);
    RowRoundTrip(m, Username(t, m.userId));
    GuardedUpsertExact(m.id, prior.messages[m.id], FullRow(m), Username(t, m.userId));
  }

  /** Every loaded message is the one its row gives. */
  lemma LoadedFromRow(t: Tables, room: string, x: Message)
    requires Consistent(t) && x in RoomMessages(t, room)
    ensures x.id in t.messages && x == LoadedMessage(t, x.id) && t.rooms[t.messages[x.id].roomId].roomKey == room
  {
    hide LoadRow, Username;
    MessageBeforeIsOrder();
    var keys := SortSet(MessageKeysIn(t, room), MessageBefore);
    var i :| 0 <= i < |RoomMessages(t, room)| && RoomMessages(t, room)[i] == x;
    assert keys[i] in Elements(keys);
    LoadedMessageKey(t, keys[i].id);
  }

  /** Each room loads oldest first, whatever the database holds. */
  lemma {:induction false} LoadedInOrder(t: Tables, room: string)
    requires Consistent(t)
    ensures OldestFirst(RoomMessages(t, room))
  {
    hide LoadedMessage, MessageBefore;
    MessageBeforeIsOrder();
    var keys := SortSet(MessageKeysIn(t, room), MessageBefore);
    var ms := RoomMessages(t, room);
    forall i | 0 <= i < |ms| ensures MessageKey(ms[i].timestamp, ms[i].id) == keys[i] {
      assert keys[i] in Elements(keys);
      LoadedMessageKey(t, keys[i].id);
    }
    assert forall i, j | 0 <= i < j < |keys| :: MessageBefore(keys[i], keys[j]);
  }

  /** Every row is loaded into its room. */
  lemma RowLoaded(t: Tables, id: string)
    requires Consistent(t) && id in t.messages
    ensures var room := t.rooms[t.messages[id].roomId].roomKey;
      room in RoomKeys(t) && LoadedMessage(t, id) in RoomMessages(t, room)
  {
    hide LoadedMessage;
    MessageBeforeIsOrder();
    var room := t.rooms[t.messages[id].roomId].roomKey;
    var keys := SortSet(MessageKeysIn(t, room), MessageBefore);
    assert MessageKeyOf(t, id) in Elements(keys);
    var i :| 0 <= i < |keys| && keys[i] == MessageKeyOf(t, id);
    assert RoomMessages(t, room)[i] == LoadedMessage(t, id);
  }

  lemma UsernameLoaded(t: Tables, u: string)
    ensures Username(t, u) == Lookup(Usernames(t), u, "")
  {
    BlankEmpty();
  }

  lemma RoomKeysAre(s: Snapshot, env: SaveEnv, names: seq<string>, t: Tables)
    requires DistinctRoomIds(s, env) && RoomEnumeration(s, names) && Consistent(t)
    requires t.rooms == UpsertRooms(map[], RoomEntries(s, env, names))
    ensures RoomKeys(t) == AllRooms(s) && Elements(names) == AllRooms(s)
    ensures forall name | name in AllRooms(s) ::
        name in names && name in RoomIdsByName(t) && RoomIdsByName(t)[name] == RoomIdOf(s, env, name)
  {
    hide RoomIdOf;
    hide UpsertRooms;
    hide AllRooms;
    RoomsStoredAll(s, env, names, t.rooms);
    forall name ensures name in RoomKeys(t) <==> name in names {
      if name in names {
        var k :| 0 <= k < |names| && names[k] == name;
        assert t.rooms[RoomIdOf(s, env, names[k])].roomKey == name;
      }
    }
    forall name | name in AllRooms(s)
      ensures name in names && name in RoomIdsByName(t) && RoomIdsByName(t)[name] == RoomIdOf(s, env, name) {
      assert name in Elements(names);
      var k :| 0 <= k < |names| && names[k] == name;
      assert t.rooms[RoomIdOf(s, env, names[k])].roomKey == name;
    }
  }

  /** When every room with messages is listed, rooms load in the listed order. */
  lemma ListedOrder(s: Snapshot, names: seq<string>)
    requires RoomEnumeration(s, names)
    requires forall room | room in s.messages :: room == "" || room in RoomNames(s.rooms)
    ensures names == RoomNames(s.rooms)
  {
    var listed := RoomNames(s.rooms);
    assert Elements(names) == Elements(listed);
    assert forall k | 0 <= k < |listed| :: listed[k] == names[k];
    DistinctSize(names);
    DistinctSize(listed);
  }

  /** No stale row survives: exactly the snapshot's messages, its rooms, and its listed users and
      authors are stored, and every foreign key resolves. */
  lemma NoStaleRows(prior: Tables, s: Snapshot, env: SaveEnv, names: seq<string>, t: Tables)
    requires Storable(s, env) && Saved(prior, s, env, names, t) && Consistent(t)
    ensures forall id | id in t.messages :: exists m :: m in Contents(s, env) && m.id == id
    ensures forall id | id in t.rooms :: exists name :: name in AllRooms(s) && id == RoomIdOf(s, env, name)
    ensures t.users.Keys == UserIds(s) + Authors(Contents(s, env))
    ensures ForeignKeysHold(t)
  {
    hide RoomIdOf;
    hide UpsertRooms;
    hide AllRooms;
    hide UserIds;
    StorableIds(s, env);
    RoomsStoredAll(s, env, names, t.rooms);
    forall id | id in t.rooms ensures exists name :: name in AllRooms(s) && id == RoomIdOf(s, env, name) {
      var k :| 0 <= k < |names| && id == RoomIdOf(s, env, names[k]);
      assert names[k] in Elements(names);
    }
  }
}
