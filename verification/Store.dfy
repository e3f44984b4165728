/** `SQLiteStore`: a full save, an incremental save and a load over the tables. A save works on the
    tables of its transaction and stores them back on commit. */
module Store {
  import opened ChatTypes
  import opened Text
  import opened Sorting
  import opened StoreSchema
  import opened StoreSpec

  class SQLiteStore {
    var users: map<string, UserRow>
    var rooms: map<string, RoomRow>
    var messages: map<string, MessageRow>
    var history: seq<HistoryRow>

    function Db(): Tables
      reads this
    {
      Tables(users, rooms, messages, history)
    }

    ghost predicate Valid()
      reads this
    {
      Consistent(Db())
    }

    constructor ()
      ensures Valid() && Db() == Tables(map[], map[], map[], [])
    {
      users, rooms, messages, history := map[], map[], map[], [];
    }

    method Commit(tx: Tables)
      modifies this
      ensures Db() == tx
    {
      users, rooms, messages, history := tx.users, tx.rooms, tx.messages, tx.history;
    }

    /** A full save. It fails, and changes nothing, exactly if some room comes to its turn while another
        stored room has its key: the room would change its ID, and its old ID has not been given away. */
    method SaveWithIdentity(s: Snapshot, env: SaveEnv) returns (ok: bool, ghost names: seq<string>)
      requires Valid() && Storable(s, env)
      modifies this
      ensures Valid()
      ensures RoomEnumeration(s, names) && (ok <==> Fits(old(rooms), s, env, names))
      ensures ok ==> Saved(old(Db()), s, env, names, Db())
      ensures !ok ==> Db() == old(Db())
      ensures StableRooms(old(rooms), s, env) ==> ok
    {
      hide Saved;
      hide Storable;
      hide StableRooms;
      hide Consistent, Fits, RoomEnumeration;
      var tx;
      ok, tx, names := SaveSnapshot(Db(), s, env);
      if ok {
        Commit(tx);
      }
    }

    // ---- incremental save ----

    /** An incremental save: one new message with its author's and its room's directory entries. */
    method SaveMessage(m: Message, meta: Metadata, now: int) returns (ok: bool)
      requires Valid()
      modifies this
      ensures Valid()
      ensures ok <==> Insertable(old(Db()), m, meta)
      ensures Db() == if ok then InsertMessage(old(Db()), m, meta, now) else old(Db())
    {
      hide InsertMessage;
      hide Insertable;
      hide Consistent;
      var tx;
      ok, tx := InsertInTransaction(Db(), m, meta, now);
      if ok {
        InsertConsistent(Db(), m, meta, now);
        Commit(tx);
      }
    }

    // ---- load ----

    method Load() returns (state: LoadedState)
      requires Valid() && Tidy(Db())
      ensures state == Loaded(Db())
    {
      hide Consistent;
      hide Tidy;
      hide RoomMessages;
      hide RoomOrder;
      hide RoomIdsByName;
      hide RoomKeyNames;
      hide RoomCiphertexts; hide RoomStamps; hide Usernames; hide PublicKeys; hide PublicKeyStamps;
      hide UsernameCiphertexts; hide UserStamps;
      var t := Db();
      var roomNames, roomIDs := LoadRooms(t);
      var roomMessages := LoadMessages(t);
      state := LoadedState(roomMessages, roomNames, roomIDs, RoomCiphertexts(t), RoomStamps(t), Usernames(t),
                           PublicKeys(t), PublicKeyStamps(t), UsernameCiphertexts(t), UserStamps(t));
      assert state.messages == Loaded(t).messages;
    }
  }

  // ---- the statements of an incremental save ----

  method InsertInTransaction(t: Tables, m: Message, meta: Metadata, now: int) returns (ok: bool, tx: Tables)
    ensures ok <==> Insertable(t, m, meta)
    ensures ok ==> tx == InsertMessage(t, m, meta, now)
  {
    hide TrimSpace;
    hide MergeUser;
    hide IncrementalRow;
    tx := t;
    if TrimSpace(m.id) == "" || TrimSpace(m.roomId) == "" || TrimSpace(m.userId) == "" {
      return false, tx;
    }
    var roomKey := TrimSpace(meta.roomKey);
    if roomKey == "" {
      roomKey := m.roomId;
    }
    tx := tx.(users := tx.users[m.userId := MergeUser(tx.users, m, meta)]);
    var rooms;
    ok, rooms := UpsertRoom(tx.rooms, m.roomId, MergeRoom(tx.rooms, m, roomKey, meta, now));
    if !ok || m.id in tx.messages {
      return false, tx;
    }
    tx := tx.(rooms := rooms, messages := tx.messages[m.id := IncrementalRow(m)]);
  }

  // ---- the queries of a load ----

  method LoadRooms(t: Tables) returns (names: seq<string>, ids: map<string, string>)
    requires Consistent(t) && Tidy(t)
    ensures names == RoomKeyNames(RoomOrder(t))
    ensures ids == RoomIdsByName(t)
  {
    hide RoomBefore;
    hide TrimSpace;
    hide Consistent;
    hide Tidy;
    hide RoomsListed;
    hide IdsByName;
    hide RoomIdsByName;
    RoomBeforeIsOrder();
    var sorted := SortedElements(set id | id in t.rooms :: RoomKeyOf(t, id), RoomBefore);
    RoomKeysListed(t, sorted);
    names, ids := [], map[];
    IdsByNameEmpty(t, sorted);
    for i := 0 to |sorted|
      invariant names == RoomKeyNames(sorted[..i]) && IdsByName(sorted[..i], ids)
    {
      RoomKeyNamesStep(sorted, i);
      IdsByNameStep(t, sorted, i, ids);
      var trimmed := TrimSpace(sorted[i].key);
      names := names + [trimmed];
      ids := ids[trimmed := sorted[i].id];
    }
    assert sorted[..|sorted|] == sorted;
    IdsByNameComplete(t, sorted, ids);
  }

  ghost predicate IdsByName(sorted: seq<RoomKey>, ids: map<string, string>) {
    && (forall key | key in ids :: exists j :: 0 <= j < |sorted| && sorted[j].key == key)
    && (forall j | 0 <= j < |sorted| :: sorted[j].key in ids && ids[sorted[j].key] == sorted[j].id)
  }

  lemma IdsByNameEmpty(t: Tables, sorted: seq<RoomKey>)
    requires Ascending(sorted, RoomBefore) && Elements(sorted) == set id | id in t.rooms :: RoomKeyOf(t, id)
    ensures IdsByName(sorted[..0], map[]) && RoomKeyNames(sorted[..0]) == [] && sorted == RoomOrder(t)
  {
    hide RoomBefore;
    RoomBeforeIsOrder();
    SortSetUnique(sorted, RoomBefore);
  }

  lemma RoomKeyNamesStep(sorted: seq<RoomKey>, i: nat)
    requires i < |sorted|
    ensures RoomKeyNames(sorted[..i + 1]) == RoomKeyNames(sorted[..i]) + [sorted[i].key]
  {
  }

  lemma IdsByNameStep(t: Tables, sorted: seq<RoomKey>, i: nat, ids: map<string, string>)
    requires RoomsListed(t, sorted) && i < |sorted| && IdsByName(sorted[..i], ids)
    ensures TrimSpace(sorted[i].key) == sorted[i].key
    ensures IdsByName(sorted[..i + 1], ids[sorted[i].key := sorted[i].id])
  {
    hide TrimSpace;
    hide RoomKeyOf;
    var s, s', ids' := sorted[..i], sorted[..i + 1], ids[sorted[i].key := sorted[i].id];
    forall key | key in ids' ensures exists j :: 0 <= j < |s'| && s'[j].key == key {
      if key in ids {
        var j :| 0 <= j < |s| && s[j].key == key;
        assert s'[j].key == key;
      } else {
        assert s'[i].key == key;
      }
    }
    forall j | 0 <= j < |s'| ensures s'[j].key in ids' && ids'[s'[j].key] == s'[j].id {
      if j < i {
        assert s[j] == s'[j];
      }
    }
  }

  lemma IdsByNameComplete(t: Tables, sorted: seq<RoomKey>, ids: map<string, string>)
    requires Consistent(t) && RoomsListed(t, sorted) && IdsByName(sorted, ids)
    ensures ids == RoomIdsByName(t)
  {
    hide TrimSpace;
    forall key ensures key in ids <==> key in RoomKeys(t) {
      if key in RoomKeys(t) {
        var id := RoomWithKey(t, key);
        var j :| 0 <= j < |sorted| && sorted[j] == RoomKeyOf(t, id);
      }
    }
    forall key | key in RoomKeys(t) ensures ids[key] == RoomWithKey(t, key) {
      var id := RoomWithKey(t, key);
      var j :| 0 <= j < |sorted| && sorted[j] == RoomKeyOf(t, id);
    }
  }

  /** The sorted keys list every room once, under distinct trimmed names. */
  ghost predicate RoomsListed(t: Tables, sorted: seq<RoomKey>) {
    && (forall j | 0 <= j < |sorted| :: sorted[j].id in t.rooms && sorted[j] == RoomKeyOf(t, sorted[j].id))
    && (forall j | 0 <= j < |sorted| :: TrimSpace(sorted[j].key) == sorted[j].key)
    && (forall i, j | 0 <= i < j < |sorted| :: sorted[i].key != sorted[j].key)
    && (forall id | id in t.rooms :: exists j :: 0 <= j < |sorted| && sorted[j] == RoomKeyOf(t, id))
  }

  lemma RoomKeysListed(t: Tables, sorted: seq<RoomKey>)
    requires Consistent(t) && Tidy(t) && Ascending(sorted, RoomBefore)
    requires Elements(sorted) == set id | id in t.rooms :: RoomKeyOf(t, id)
    ensures RoomsListed(t, sorted)
  {
    hide RoomBefore;
    hide TrimSpace;
    RoomBeforeIsOrder();
    forall j | 0 <= j < |sorted| ensures sorted[j].id in t.rooms && sorted[j] == RoomKeyOf(t, sorted[j].id) {
      assert sorted[j] in Elements(sorted);
    }
    forall id | id in t.rooms ensures exists j :: 0 <= j < |sorted| && sorted[j] == RoomKeyOf(t, id) {
      assert RoomKeyOf(t, id) in Elements(sorted);
    }
    forall i, j | 0 <= i < j < |sorted| ensures sorted[i].key != sorted[j].key {
      assert RoomBefore(sorted[i], sorted[j]);
      assert sorted[i] != sorted[j];
      assert sorted[i].id != sorted[j].id;
    }
  }

  /** Reads the messages oldest first and distributes them over the rooms. */
  method LoadMessages(t: Tables) returns (byRoom: map<string, seq<Message>>)
    requires Consistent(t) && Tidy(t)
    ensures byRoom == MessagesByRoom(t)
  {
    hide MessageBefore;
    hide TrimSpace;
    hide LoadedMessage;
    hide RoomMessages;
    hide Consistent;
    hide Tidy;
    hide Distributed;
    hide RoomKeys;
    hide AllMessageKeys, MessagesByRoom, KeysIn, TotalOrder, Ascending;
    byRoom := EmptyLists(t);
    NothingDistributed(t);
    MessageBeforeIsOrder();
    var sorted := SortedElements(AllMessageKeys(t), MessageBefore);
    MessageKeysListed(t, sorted);
    for i := 0 to |sorted|
      invariant Distributed(t, sorted[..i], byRoom)
    {
      var k := sorted[i];
      assert k in sorted;
      assert sorted[..i + 1] == sorted[..i] + [k];
      DistributedStep(t, sorted[..i], k, byRoom);
      var room := TrimSpace(t.rooms[t.messages[k.id].roomId].roomKey);
      byRoom := byRoom[room := byRoom[room] + [LoadedMessage(t, k.id)]];
    }
    assert sorted[..|sorted|] == sorted;
    AllDistributed(t, sorted, byRoom);
  }

  lemma NothingDistributed(t: Tables)
    requires Consistent(t)
    ensures Distributed(t, [], EmptyLists(t))
  {
  }

  lemma AllDistributed(t: Tables, sorted: seq<MessageKey>, byRoom: map<string, seq<Message>>)
    requires Distributed(t, sorted, byRoom) && Ascending(sorted, MessageBefore)
    requires Elements(sorted) == AllMessageKeys(t)
    ensures byRoom == MessagesByRoom(t)
  {
    hide MessageBefore;
    hide LoadedMessage;
    hide RoomMessages;
    forall room | room in RoomKeys(t) ensures byRoom[room] == RoomMessages(t, room) {
      KeysInSorted(t, sorted, room);
    }
  }

  function EmptyLists(t: Tables): (byRoom: map<string, seq<Message>>) {
    map id | id in t.rooms :: t.rooms[id].roomKey := []
  }

  /** The messages at `keys` have been distributed over the rooms. */
  ghost predicate Distributed(t: Tables, keys: seq<MessageKey>, byRoom: map<string, seq<Message>>) {
    && Consistent(t) && (forall k | k in keys :: k.id in t.messages)
    && byRoom.Keys == RoomKeys(t)
    && (forall room | room in byRoom :: byRoom[room] == LoadKeys(t, KeysIn(t, keys, room)))
  }

  lemma DistributedStep(t: Tables, keys: seq<MessageKey>, k: MessageKey, byRoom: map<string, seq<Message>>)
    requires Distributed(t, keys, byRoom) && Tidy(t) && k.id in t.messages
    ensures t.messages[k.id].roomId in t.rooms && t.messages[k.id].userId in t.users
    ensures TrimSpace(t.rooms[t.messages[k.id].roomId].roomKey) in byRoom
    ensures var room := TrimSpace(t.rooms[t.messages[k.id].roomId].roomKey);
      Distributed(t, keys + [k], byRoom[room := byRoom[room] + [LoadedMessage(t, k.id)]])
  {
    hide TrimSpace;
    hide LoadedMessage;
    assert (keys + [k])[..|keys|] == keys;
    var room := TrimSpace(t.rooms[t.messages[k.id].roomId].roomKey);
    var byRoom' := byRoom[room := byRoom[room] + [LoadedMessage(t, k.id)]];
    assert room in RoomKeys(t);
    forall r | r in byRoom' ensures byRoom'[r] == LoadKeys(t, KeysIn(t, keys + [k], r)) {
      if r == room {
        assert KeysIn(t, keys + [k], r) == KeysIn(t, keys, r) + [k];
      } else {
        assert KeysIn(t, keys + [k], r) == KeysIn(t, keys, r);
      }
    }
  }

  function AllMessageKeys(t: Tables): set<MessageKey> {
    set id | id in t.messages :: MessageKeyOf(t, id)
  }

  lemma MessageKeysListed(t: Tables, sorted: seq<MessageKey>)
    requires Elements(sorted) == AllMessageKeys(t)
    ensures forall k | k in sorted :: k.id in t.messages
  {
    assert forall k | k in sorted :: k in Elements(sorted);
  }

  /** `names` lists the keys of `order` by their numbers 0, 1, ... */
  ghost predicate Numbered(order: map<string, int>, names: seq<string>) {
    Distinct(names) && order.Keys == Elements(names) && forall k | 0 <= k < |names| :: order[names[k]] == k
  }

  lemma NumberedAppend(order: map<string, int>, names: seq<string>, name: string)
    requires Numbered(order, names) && name !in order
    ensures Numbered(order[name := |names|], names + [name])
    ensures Elements(names + [name]) == Elements(names) + {name}
  {
    AppendDistinct(names, name);
    assert forall k | 0 <= k < |names| :: names[k] in Elements(names);
  }

  /** Numbers the listed rooms, then the rooms that only occur in the message map. */
  method OrderRooms(s: Snapshot) returns (order: map<string, int>, ghost names: seq<string>)
    requires TrimmedKeys(s.messages)
    ensures RoomEnumeration(s, names) && Numbered(order, names)
  {
    hide TrimSpace;
    order, names := map[], [];
    var nextOrder := 0;
    for i := 0 to |s.rooms|
      invariant names == RoomNames(s.rooms[..i]) && nextOrder == |names| && Numbered(order, names)
    {
      var trimmed := TrimSpace(s.rooms[i]);
      assert s.rooms[..i + 1][..i] == s.rooms[..i];
      assert trimmed in order <==> trimmed in names;
      if trimmed != "" && trimmed !in order {
        NumberedAppend(order, names, trimmed);
        order := order[trimmed := nextOrder];
        names := names + [trimmed];
        nextOrder := nextOrder + 1;
      }
    }
    assert s.rooms[..|s.rooms|] == s.rooms;
    ghost var listed := Elements(names);
    var pending := s.messages.Keys;
    while pending != {}
      invariant pending <= s.messages.Keys
      invariant RoomNames(s.rooms) <= names && nextOrder == |names| && Numbered(order, names)
      invariant Elements(names) == listed + (s.messages.Keys - pending - {""})
      decreases pending
    {
      var roomName :| roomName in pending;
      pending := pending - {roomName};
      var trimmed := TrimSpace(roomName);
      if trimmed != "" && trimmed !in order {
        NumberedAppend(order, names, trimmed);
        order := order[trimmed := nextOrder];
        names := names + [trimmed];
        nextOrder := nextOrder + 1;
      }
    }
  }

  /** The names in the order of their numbers. */
  method SortByOrder(order: map<string, int>, ghost names: seq<string>) returns (sorted: seq<string>)
    requires Numbered(order, names)
    ensures sorted == names
  {
    var collected := Collect(order.Keys);
    var lt := (a: string, b: string) => Lookup(order, a, 0) < Lookup(order, b, 0);
    sorted := Sort(collected, lt);
    assert Comparable(order.Keys, lt) by {
      forall x, y | x in order.Keys && y in order.Keys && x != y ensures lt(x, y) || lt(y, x) {
        var i :| 0 <= i < |names| && names[i] == x;
        var j :| 0 <= j < |names| && names[j] == y;
      }
    }
    SortAscending(collected, lt);
    assert forall k | 0 <= k < |names| :: names[k] in Elements(names);
    AscendingUnique(sorted, names, lt);
  }

  /** The transaction of a full save. */
  method SaveSnapshot(t: Tables, s: Snapshot, env: SaveEnv) returns (ok: bool, tx: Tables, ghost names: seq<string>)
    requires Consistent(t) && Storable(s, env)
    ensures RoomEnumeration(s, names) && (ok <==> Fits(t.rooms, s, env, names))
    ensures ok ==> Saved(t, s, env, names, tx) && Consistent(tx)
    ensures StableRooms(t.rooms, s, env) ==> ok
  {
    hide *;
    StorableParts(s, env);
    ConsistentParts(t);
    tx := t;
    var order;
    order, names := OrderRooms(s);
    EnumerationComplete(s, names);
    var roomNames := SortByOrder(order, names);
    var rooms;
    ok, rooms := SaveRooms(t.rooms, s, env, roomNames, order);
    if !ok {
      return;
    }
    var currentUsers := UserIds(s);
    var users := SaveUsers(t.users, s, currentUsers);
    var start := Tables(users, rooms, t.messages, t.history);
    ghost var batch;
    var messageIds, authors;
    tx, messageIds, authors, batch := SaveMessages(start, s, env);
    BatchApplied(start, batch);
    ghost var upserted := tx;
    var roomIds := set k | 0 <= k < |roomNames| :: RoomIdOf(s, env, roomNames[k]);
    EntryIdsAre(s, env, names);
    KeptByPrune(s, env, names, start, upserted);
    tx := Prune(tx, messageIds, roomIds, currentUsers + authors);
    PrunedIsSaved(t, s, env, names, start, upserted, tx);
  }

  lemma StorableParts(s: Snapshot, env: SaveEnv)
    requires Storable(s, env)
    ensures TrimmedKeys(s.messages) && DistinctRoomIds(s, env)
  {
  }

  lemma ConsistentParts(t: Tables)
    requires Consistent(t)
    ensures UniqueRoomKeys(t.rooms) && HistoryLive(t.history, t.messages)
  {
  }

  lemma EnumerationComplete(s: Snapshot, names: seq<string>)
    requires RoomEnumeration(s, names)
    ensures Elements(names) == AllRooms(s) && Distinct(names)
  {
  }

  // ---- rooms and users of a full save ----

  /** INSERT INTO rooms ... ON CONFLICT(room_id) DO UPDATE, failing on a duplicate room key. */
  method UpsertRoom(rooms: map<string, RoomRow>, id: string, row: RoomRow) returns (ok: bool, r: map<string, RoomRow>)
    ensures ok <==> forall j | j in rooms && j != id :: rooms[j].roomKey != row.roomKey
    ensures r == if ok then rooms[id := row] else rooms
  {
    ok := forall j | j in rooms && j != id :: rooms[j].roomKey != row.roomKey;
    r := if ok then rooms[id := row] else rooms;
  }

  method SaveRooms(rooms: map<string, RoomRow>, s: Snapshot, env: SaveEnv, names: seq<string>, order: map<string, int>)
    returns (ok: bool, r: map<string, RoomRow>)
    requires Numbered(order, names) && Elements(names) == AllRooms(s)
    requires DistinctRoomIds(s, env) && UniqueRoomKeys(rooms) && Distinct(names)
    ensures ok <==> Fits(rooms, s, env, names)
    ensures ok ==> r == UpsertRooms(rooms, RoomEntries(s, env, names)) && UniqueRoomKeys(r)
    ensures StableRooms(rooms, s, env) ==> ok
  {
    hide RoomIdOf;
    hide RoomRowFor;
    hide UniqueRoomKeys;
    hide StableRooms;
    hide UpsertRooms;
    hide AllRooms;
    hide DistinctRoomIds, Distinct, FitsAt, Overwritten;
    r := rooms;
    ghost var entries := RoomEntries(s, env, names);
    UpsertNoRooms(rooms);
    NothingOverwritten(rooms, s, env, names);
    for k := 0 to |names|
      invariant r == UpsertRooms(rooms, entries[..k]) && UniqueRoomKeys(r)
      invariant StableRooms(rooms, s, env) ==> StableRooms(r, s, env)
      invariant Overwritten(rooms, s, env, names, k, r) && forall j | 0 <= j < k :: FitsAt(rooms, s, env, names, j)
    {
      var name := names[k];
      assert name in Elements(names);
      var id := RoomIdOf(s, env, name);
      UpsertRoomStep(rooms, entries, k);
      UpsertKeepsKeys(r, s, env, name, order[name]);
      FitsInTurn(rooms, s, env, names, k, r, order[name]);
      ok, r := UpsertRoom(r, id, RoomRowFor(s, env, name, order[name]));
      if !ok {
        return;
      }
    }
    assert entries[..|names|] == entries;
    ok := true;
  }

  /** The rows under the IDs of the first `k` rooms are theirs, and all others are the stored ones. */
  ghost predicate Overwritten(rooms: map<string, RoomRow>, s: Snapshot, env: SaveEnv, names: seq<string>, k: int,
        r: map<string, RoomRow>)
    requires 0 <= k <= |names|
  {
    && (forall id | id in rooms :: id in r)
    && (forall id | id in r && !Given(s, env, names, k, id) :: id in rooms && r[id] == rooms[id])
    && (forall m | 0 <= m < k :: var id := RoomIdOf(s, env, names[m]); id in r && r[id].roomKey == names[m])
  }

  lemma {:induction false} NothingOverwritten(rooms: map<string, RoomRow>, s: Snapshot, env: SaveEnv,
        names: seq<string>)
    ensures Overwritten(rooms, s, env, names, 0, rooms)
  {
  }

  lemma {:induction false} GivenNext(s: Snapshot, env: SaveEnv, names: seq<string>, k: int, id: string)
    requires 0 <= k < |names|
    ensures Given(s, env, names, k + 1, id) <==> Given(s, env, names, k, id) || RoomIdOf(s, env, names[k]) == id
  {
    hide RoomIdOf;
    if m :| 0 <= m < k + 1 && RoomIdOf(s, env, names[m]) == id {
      assert m < k ==> Given(s, env, names, k, id);
    }
  }

  lemma {:induction false} NotGivenYet(s: Snapshot, env: SaveEnv, names: seq<string>, k: int)
    requires 0 <= k < |names| && Distinct(names) && DistinctRoomIds(s, env) && Elements(names) == AllRooms(s)
    ensures forall m | 0 <= m < k :: RoomIdOf(s, env, names[m]) != RoomIdOf(s, env, names[k])
  {
    hide RoomIdOf, AllRooms;
    forall m | 0 <= m < k ensures RoomIdOf(s, env, names[m]) != RoomIdOf(s, env, names[k]) {
      assert names[m] in Elements(names) && names[k] in Elements(names) && names[m] != names[k];
    }
  }

  lemma {:induction false} FitsExactly(rooms: map<string, RoomRow>, s: Snapshot, env: SaveEnv, names: seq<string>,
        k: int, r: map<string, RoomRow>)
    requires 0 <= k < |names| && Overwritten(rooms, s, env, names, k, r) && Distinct(names)
    ensures FitsAt(rooms, s, env, names, k)
       <==> forall j | j in r && j != RoomIdOf(s, env, names[k]) :: r[j].roomKey != names[k]
  {
    hide RoomIdOf;
    forall j | j in r && Given(s, env, names, k, j) ensures r[j].roomKey != names[k] {
      var m :| 0 <= m < k && RoomIdOf(s, env, names[m]) == j;
    }
    hide Given, Distinct;
  }

  lemma {:induction false} FitsInTurn(rooms: map<string, RoomRow>, s: Snapshot, env: SaveEnv, names: seq<string>,
        k: int, r: map<string, RoomRow>, order: int)
    requires 0 <= k < |names| && Overwritten(rooms, s, env, names, k, r) && Distinct(names)
    requires DistinctRoomIds(s, env) && Elements(names) == AllRooms(s)
    ensures var id, row := RoomIdOf(s, env, names[k]), RoomRowFor(s, env, names[k], order);
      && ((forall j | j in r && j != id :: r[j].roomKey != row.roomKey) <==> FitsAt(rooms, s, env, names, k))
      && Overwritten(rooms, s, env, names, k + 1, r[id := row])
  {
    var id, row := RoomIdOf(s, env, names[k]), RoomRowFor(s, env, names[k], order);
    assert row.roomKey == names[k];
    hide *;
    FitsExactly(rooms, s, env, names, k, r);
    NotGivenYet(s, env, names, k);
    OverwrittenNext(rooms, s, env, names, k, r, row);
  }

  lemma {:induction false} OverwrittenNext(rooms: map<string, RoomRow>, s: Snapshot, env: SaveEnv, names: seq<string>,
        k: int, r: map<string, RoomRow>, row: RoomRow)
    requires 0 <= k < |names| && Overwritten(rooms, s, env, names, k, r) && row.roomKey == names[k]
    requires forall m | 0 <= m < k :: RoomIdOf(s, env, names[m]) != RoomIdOf(s, env, names[k])
    ensures Overwritten(rooms, s, env, names, k + 1, r[RoomIdOf(s, env, names[k]) := row])
  {
    hide RoomIdOf, Given;
    var id := RoomIdOf(s, env, names[k]);
    var r' := r[id := row];
    forall j | j in r' && !Given(s, env, names, k + 1, j) ensures j in rooms && r'[j] == rooms[j] {
      GivenNext(s, env, names, k, j);
    }
    forall m | 0 <= m < k + 1 ensures RoomIdOf(s, env, names[m]) in r'
      && r'[RoomIdOf(s, env, names[m])].roomKey == names[m] {
      assert m < k ==> RoomIdOf(s, env, names[m]) != id;
    }
  }

  /** A room that changes its ID makes the save fail, if no room of the save takes the old one. */
  lemma {:induction false} MovedRoomFails(rooms: map<string, RoomRow>, s: Snapshot, env: SaveEnv, names: seq<string>,
        id: string)
    requires RoomEnumeration(s, names) && id in rooms && rooms[id].roomKey in AllRooms(s)
    requires forall name | name in AllRooms(s) :: RoomIdOf(s, env, name) != id
    ensures !Fits(rooms, s, env, names)
  {
    hide RoomIdOf, AllRooms;
    assert rooms[id].roomKey in Elements(names);
    var k :| 0 <= k < |names| && names[k] == rooms[id].roomKey;
    assert forall m | 0 <= m < |names| :: names[m] in Elements(names);
    assert !Given(s, env, names, k, id);
    assert !FitsAt(rooms, s, env, names, k);
  }

  lemma {:induction false} UpsertNoRooms(rooms: map<string, RoomRow>)
    ensures UpsertRooms(rooms, []) == rooms
  {
  }

  lemma {:induction false} UpsertRoomStep(rooms: map<string, RoomRow>, entries: seq<RoomEntry>, k: nat)
    requires k < |entries|
    ensures UpsertRooms(rooms, entries[..k + 1]) == UpsertRooms(rooms, entries[..k])[entries[k].id := entries[k].row]
  {
    assert entries[..k + 1][..k] == entries[..k];
  }

  /** Upserting a room keeps room keys unique and, when IDs are stable, cannot fail. */
  lemma UpsertKeepsKeys(rooms: map<string, RoomRow>, s: Snapshot, env: SaveEnv, name: string, order: int)
    requires UniqueRoomKeys(rooms) && DistinctRoomIds(s, env) && name in AllRooms(s)
    ensures var id, row := RoomIdOf(s, env, name), RoomRowFor(s, env, name, order);
      && ((forall j | j in rooms && j != id :: rooms[j].roomKey != row.roomKey) ==> UniqueRoomKeys(rooms[id := row]))
      && (StableRooms(rooms, s, env) ==>
            (forall j | j in rooms && j != id :: rooms[j].roomKey != row.roomKey)
            && StableRooms(rooms[id := row], s, env))
  {
    hide RoomIdOf;
    hide AllRooms;
    assert RoomRowFor(s, env, name, order).roomKey == name;
  }

  ghost function EntryIds(entries: seq<RoomEntry>): set<string> {
    set e | e in entries :: e.id
  }

  /** Rows of upserted rooms do not depend on what was stored before. */
  lemma {:induction false} UpsertRoomsResult(rooms: map<string, RoomRow>, entries: seq<RoomEntry>)
    ensures UpsertRooms(rooms, entries).Keys == rooms.Keys + EntryIds(entries)
    ensures UpsertRooms(map[], entries).Keys == EntryIds(entries)
    ensures forall id | id in EntryIds(entries) :: UpsertRooms(rooms, entries)[id] == UpsertRooms(map[], entries)[id]
  {
    if entries != [] {
      var rest, last := entries[..|entries| - 1], entries[|entries| - 1];
      UpsertRoomsResult(rooms, rest);
      assert entries == rest + [last];
      assert EntryIds(entries) == EntryIds(rest) + {last.id};
    }
  }

  /** Users at `ids` carry their new rows, all others are as before. */
  ghost predicate UsersUpserted(users: map<string, UserRow>, s: Snapshot, ids: set<string>, r: map<string, UserRow>) {
    && r.Keys == users.Keys + ids
    && (forall u | u in ids :: r[u] == UserRowFor(s, u))
    && (forall u | u in users && u !in ids :: r[u] == users[u])
  }

  method SaveUsers(users: map<string, UserRow>, s: Snapshot, currentUsers: set<string>)
    returns (r: map<string, UserRow>)
    ensures UsersUpserted(users, s, currentUsers, r)
  {
    r := users;
    var pending := currentUsers;
    while pending != {}
      invariant pending <= currentUsers && UsersUpserted(users, s, currentUsers - pending, r)
      decreases pending
    {
      var u :| u in pending;
      pending := pending - {u};
      r := r[u := UserRowFor(s, u)];
    }
    assert currentUsers - pending == currentUsers;
  }

  // ---- messages of a full save ----

  /** One message of a full save: its author is made to exist, then its row is upserted. */
  method SaveMessageRow(t: Tables, m: Message) returns (r: Tables)
    ensures r == UpsertMessage(t, m)
  {
    r := t;
    if m.userId !in r.users {
      r := r.(users := r.users[m.userId := BARE_USER]);
    }
    var row := FullRow(m);
    if m.id !in r.messages {
      r := r.(messages := r.messages[m.id := row]);
    } else if Differs(r.messages[m.id], row) {
      if Archives(r.messages[m.id], row) {
        r := r.(history := r.history + [HistoryRow(m.id, r.messages[m.id])]);
      }
      r := r.(messages := r.messages[m.id := row]);
    }
    assert r.messages == UpsertMessage(t, m).messages;
  }

  function UpsertMessage(t: Tables, m: Message): Tables {
    var row := FullRow(m);
    Tables(if m.userId in t.users then t.users else t.users[m.userId := BARE_USER],
           t.rooms,
           t.messages[m.id := RowAfter(t.messages, m.id, row)],
           if ArchivedBy(t.messages, m.id, row) == [] then t.history
           else t.history + [HistoryRow(m.id, t.messages[m.id])])
  }

  function UpsertMessages(t: Tables, batch: seq<Message>): Tables {
    if batch == [] then t else UpsertMessage(UpsertMessages(t, batch[..|batch| - 1]), batch[|batch| - 1])
  }

  /** `batch` holds the messages found at distinct `places` of the snapshot. */
  ghost predicate BatchAt(s: Snapshot, env: SaveEnv, places: seq<(string, int)>, batch: seq<Message>) {
    && |places| == |batch| && Distinct(places) && Elements(places) <= Places(s)
    && (forall k | 0 <= k < |places| :: places[k] in Places(s) && batch[k] == Filled(s, env, places[k].0, places[k].1))
  }

  ghost predicate DistinctBatch(batch: seq<Message>) {
    forall i, j | 0 <= i < j < |batch| :: batch[i].id != batch[j].id
  }

  lemma BatchComplete(s: Snapshot, env: SaveEnv, places: seq<(string, int)>, batch: seq<Message>)
    requires Storable(s, env) && BatchAt(s, env, places, batch) && Elements(places) == Places(s)
    ensures DistinctBatch(batch) && Elements(batch) == Contents(s, env)
  {
    forall m | m in Contents(s, env) ensures m in batch {
      var room, i :| room in s.messages && room != "" && 0 <= i < |s.messages[room]| && m == Filled(s, env, room, i);
      assert (room, i) in Elements(places);
      var k :| 0 <= k < |places| && places[k] == (room, i);
      assert batch[k] == m;
    }
    forall m | m in batch ensures m in Contents(s, env) {
      var k :| 0 <= k < |batch| && batch[k] == m;
      assert places[k] in Places(s);
    }
  }

  /** What saving the messages at `places` has done so far. */
  ghost predicate SavedSoFar(t: Tables, s: Snapshot, env: SaveEnv, places: seq<(string, int)>, batch: seq<Message>,
                             r: Tables, ids: set<string>, authors: set<string>) {
    && BatchAt(s, env, places, batch)
    && r == UpsertMessages(t, batch)
    && ids == Ids(Elements(batch)) && authors == Authors(Elements(batch))
  }

  lemma SavedSoFarStep(t: Tables, s: Snapshot, env: SaveEnv, places: seq<(string, int)>, batch: seq<Message>,
                       r: Tables, ids: set<string>, authors: set<string>, room: string, i: int)
    requires SavedSoFar(t, s, env, places, batch, r, ids, authors)
    requires (room, i) in Places(s) && (room, i) !in Elements(places)
    ensures var m := Filled(s, env, room, i);
      SavedSoFar(t, s, env, places + [(room, i)], batch + [m], UpsertMessage(r, m), ids + {m.id}, authors + {m.userId})
    ensures Elements(places + [(room, i)]) == Elements(places) + {(room, i)}
  {
    hide Filled;
    hide UpsertMessages;
    hide UpsertMessage;
    hide Ids;
    hide Authors;
    var m := Filled(s, env, room, i);
    AppendDistinct(places, (room, i));
    UpsertMessagesAppend(t, batch, m);
    IdsAppend(batch, m);
  }

  lemma {:induction false} UpsertMessagesAppend(t: Tables, batch: seq<Message>, m: Message)
    ensures UpsertMessages(t, batch + [m]) == UpsertMessage(UpsertMessages(t, batch), m)
  {
    assert (batch + [m])[..|batch|] == batch;
  }

  lemma IdsAppend(batch: seq<Message>, m: Message)
    ensures Ids(Elements(batch + [m])) == Ids(Elements(batch)) + {m.id}
    ensures Authors(Elements(batch + [m])) == Authors(Elements(batch)) + {m.userId}
  {
    assert Elements(batch + [m]) == Elements(batch) + {m};
  }

  /** Upserts every message under a named room. */
  method SaveMessages(t: Tables, s: Snapshot, env: SaveEnv)
    returns (r: Tables, ids: set<string>, authors: set<string>, ghost batch: seq<Message>)
    requires Storable(s, env)
    ensures DistinctBatch(batch) && Elements(batch) == Contents(s, env)
    ensures r == UpsertMessages(t, batch)
    ensures ids == Ids(Contents(s, env)) && authors == Authors(Contents(s, env))
  {
    hide Storable;
    hide Contents;
    hide BatchAt;
    hide UpsertMessage;
    hide Filled;
    r, ids, authors, batch := t, {}, {}, [];
    ghost var places: seq<(string, int)> := [];
    SavedNothing(t, s, env);
    var pending := s.messages.Keys;
    while pending != {}
      invariant pending <= s.messages.Keys
      invariant SavedSoFar(t, s, env, places, batch, r, ids, authors)
      invariant Elements(places) == set p | p in Places(s) && p.0 !in pending
      decreases pending
    {
      var roomKey :| roomKey in pending;
      pending := pending - {roomKey};
      if roomKey != "" {
        r, ids, authors, places, batch := SaveRoomMessages(t, s, env, roomKey, r, ids, authors, places, batch);
      }
      assert Elements(places) == set p | p in Places(s) && p.0 !in pending;
    }
    assert Elements(places) == Places(s);
    BatchComplete(s, env, places, batch);
  }

  lemma SavedNothing(t: Tables, s: Snapshot, env: SaveEnv)
    ensures SavedSoFar(t, s, env, [], [], t, {}, {})
  {
  }

  method SaveRoomMessages(ghost t: Tables, s: Snapshot, env: SaveEnv, roomKey: string, r0: Tables, ids0: set<string>,
                          authors0: set<string>, ghost places0: seq<(string, int)>, ghost batch0: seq<Message>)
    returns (r: Tables, ids: set<string>, authors: set<string>, ghost places: seq<(string, int)>,
             ghost batch: seq<Message>)
    requires roomKey in s.messages && roomKey != "" && SavedSoFar(t, s, env, places0, batch0, r0, ids0, authors0)
    requires forall p | p in Elements(places0) :: p.0 != roomKey
    ensures SavedSoFar(t, s, env, places, batch, r, ids, authors)
    ensures Elements(places) == Elements(places0) + set p | p in Places(s) && p.0 == roomKey
  {
    hide SavedSoFar;
    hide UpsertMessage;
    hide Filled;
    r, ids, authors, places, batch := r0, ids0, authors0, places0, batch0;
    for i := 0 to |s.messages[roomKey]|
      invariant SavedSoFar(t, s, env, places, batch, r, ids, authors)
      invariant Elements(places) == Elements(places0) + set p | p in Places(s) && p.0 == roomKey && p.1 < i
    {
      SavedSoFarStep(t, s, env, places, batch, r, ids, authors, roomKey, i);
      var m := Filled(s, env, roomKey, i);
      r := SaveMessageRow(r, m);
      ids, authors := ids + {m.id}, authors + {m.userId};
      places, batch := places + [(roomKey, i)], batch + [m];
    }
  }

  /** The messages of the batch are saved, all others and their history are as before. */
  ghost predicate Applied(t: Tables, ms: set<Message>, r: Tables) {
    && r.rooms == t.rooms
    && AuthorsEnsured(t.users, Authors(ms), r.users)
    && RowsUpserted(t, ms, r)
    && (forall h | h in r.history :: h in t.history || h.messageId in Ids(ms))
  }

  ghost predicate AuthorsEnsured(users: map<string, UserRow>, authors: set<string>, r: map<string, UserRow>) {
    r.Keys == users.Keys + authors && forall u | u in r :: r[u] == Lookup(users, u, BARE_USER)
  }

  ghost predicate RowsUpserted(t: Tables, ms: set<Message>, r: Tables) {
    && r.messages.Keys == t.messages.Keys + Ids(ms)
    && (forall m | m in ms :: MessageSaved(t, m, r))
    && Untouched(t, Ids(ms), r)
  }

  /** Rows and history of other messages are as before. */
  ghost predicate Untouched(t: Tables, ids: set<string>, r: Tables) {
    && (forall id | id !in ids :: HistoryOf(r.history, id) == HistoryOf(t.history, id))
    && (forall id | id in t.messages && id !in ids :: id in r.messages && r.messages[id] == t.messages[id])
  }

  lemma {:induction false} UpsertHistory(t: Tables, m: Message, id: string)
    ensures HistoryOf(UpsertMessage(t, m).history, id)
         == HistoryOf(t.history, id) + if id == m.id then ArchivedBy(t.messages, m.id, FullRow(m)) else []
  {
    if ArchivedBy(t.messages, m.id, FullRow(m)) != [] {
      HistoryOfAppend(t.history, HistoryRow(m.id, t.messages[m.id]), id);
    }
  }

  lemma {:induction false} StaysSaved(t: Tables, r: Tables, m: Message, n: Message)
    requires MessageSaved(t, n, r) && n.id != m.id
    ensures MessageSaved(t, n, UpsertMessage(r, m))
  {
    UpsertHistory(r, m, n.id);
    hide FullRow, ArchivedBy, HistoryOf, RowAfter;
  }

  lemma {:induction false} NowSaved(t: Tables, r: Tables, m: Message)
    requires HistoryOf(r.history, m.id) == HistoryOf(t.history, m.id)
    requires m.id in t.messages <==> m.id in r.messages
    requires m.id in t.messages ==> r.messages[m.id] == t.messages[m.id]
    ensures MessageSaved(t, m, UpsertMessage(r, m))
  {
    UpsertHistory(r, m, m.id);
    hide FullRow, HistoryOf, Upsert;
  }

  lemma {:induction false} OtherRows(r: Tables, m: Message, id: string)
    requires id != m.id
    ensures var r' := UpsertMessage(r, m);
      && HistoryOf(r'.history, id) == HistoryOf(r.history, id)
      && (id in r'.messages <==> id in r.messages) && (id in r.messages ==> r'.messages[id] == r.messages[id])
  {
    UpsertHistory(r, m, id);
  }

  lemma {:induction false} IdsAdded(ms: set<Message>, m: Message)
    ensures Ids(ms + {m}) == Ids(ms) + {m.id} && forall n | n in ms :: n.id in Ids(ms)
  {
  }

  lemma {:induction false} AllStaySaved(t: Tables, ms: set<Message>, r: Tables, m: Message)
    requires m.id !in Ids(ms) && forall n | n in ms :: MessageSaved(t, n, r)
    ensures forall n | n in ms :: MessageSaved(t, n, UpsertMessage(r, m))
  {
    hide MessageSaved, UpsertMessage;
    forall n | n in ms ensures MessageSaved(t, n, UpsertMessage(r, m)) {
      IdsAdded(ms, n);
      StaysSaved(t, r, m, n);
    }
  }

  lemma {:induction false} AddedSaved(t: Tables, ms: set<Message>, r: Tables, m: Message)
    requires RowsUpserted(t, ms, r) && m.id !in Ids(ms)
    ensures MessageSaved(t, m, UpsertMessage(r, m))
  {
    hide MessageSaved, FullRow, ArchivedBy, UpsertMessage, HistoryOf, Ids;
    assert m.id in t.messages <==> m.id in r.messages;
    NowSaved(t, r, m);
  }

  lemma {:induction false} AllSaved(t: Tables, ms: set<Message>, r: Tables, m: Message)
    requires RowsUpserted(t, ms, r) && m.id !in Ids(ms)
    ensures forall n | n in ms + {m} :: MessageSaved(t, n, UpsertMessage(r, m))
  {
    hide MessageSaved, UpsertMessage, HistoryOf, Ids;
    AllStaySaved(t, ms, r, m);
    hide RowsUpserted;
    AddedSaved(t, ms, r, m);
  }

  lemma {:induction false} OthersUnsaved(t: Tables, ms: set<Message>, r: Tables, m: Message)
    requires RowsUpserted(t, ms, r) && m.id !in Ids(ms)
    ensures Untouched(t, Ids(ms) + {m.id}, UpsertMessage(r, m))
  {
    hide MessageSaved, FullRow, ArchivedBy, UpsertMessage, HistoryOf, Ids;
    var r' := UpsertMessage(r, m);
    forall id | id !in Ids(ms) + {m.id}
      ensures HistoryOf(r'.history, id) == HistoryOf(t.history, id)
      ensures id in t.messages ==> id in r'.messages && r'.messages[id] == t.messages[id]
    {
      OtherRows(r, m, id);
    }
  }

  lemma {:induction false} RowsUpsertedStep(t: Tables, ms: set<Message>, r: Tables, m: Message)
    requires RowsUpserted(t, ms, r) && m.id !in Ids(ms)
    ensures RowsUpserted(t, ms + {m}, UpsertMessage(r, m))
  {
    assert UpsertMessage(r, m).messages.Keys == r.messages.Keys + {m.id};
    IdsAdded(ms, m);
    hide MessageSaved, UpsertMessage, Untouched, Ids;
    AllSaved(t, ms, r, m);
    OthersUnsaved(t, ms, r, m);
  }

  lemma AppliedStep(t: Tables, ms: set<Message>, r: Tables, m: Message)
    requires Applied(t, ms, r) && m.id !in Ids(ms)
    ensures Applied(t, ms + {m}, UpsertMessage(r, m))
  {
    hide RowsUpserted;
    hide RowAfter;
    hide FullRow;
    RowsUpsertedStep(t, ms, r, m);
    assert Authors(ms + {m}) == Authors(ms) + {m.userId};
    assert Ids(ms + {m}) == Ids(ms) + {m.id};
  }

  lemma {:induction false} BatchApplied(t: Tables, batch: seq<Message>)
    requires DistinctBatch(batch)
    ensures Applied(t, Elements(batch), UpsertMessages(t, batch))
    ensures HistoryLive(t.history, t.messages) ==>
      HistoryLive(UpsertMessages(t, batch).history, UpsertMessages(t, batch).messages)
  {
    hide UpsertMessage;
    hide MessageSaved;
    hide HistoryOf;
    if batch == [] {
      assert Authors({}) == {} && Ids({}) == {};
    } else {
      var rest, last := batch[..|batch| - 1], batch[|batch| - 1];
      BatchApplied(t, rest);
      assert Elements(batch) == Elements(rest) + {last} by {
        assert batch == rest + [last];
      }
      AppliedStep(t, Elements(rest), UpsertMessages(t, rest), last);
    }
  }

  // ---- prune ----

  /** The three DELETE statements with their cascades. */
  method Prune(t: Tables, messageIds: set<string>, roomIds: set<string>, userIds: set<string>) returns (r: Tables)
    requires HistoryLive(t.history, t.messages)
    ensures IsPruned(t, messageIds, roomIds, userIds, r)
  {
    hide HistoryPruned, HistoryLive;
    r := DeleteMessages(t, set id | id in t.messages && id !in messageIds);
    r := r.(rooms := map id | id in r.rooms && id in roomIds :: r.rooms[id]);
    ghost var first := r;
    r := DeleteMessages(r, set id | id in r.messages && r.messages[id].roomId !in roomIds);
    PrunedAgain(t.history, first.history, r.history, first.messages.Keys, r.messages.Keys);
    r := r.(users := map u | u in r.users && u in userIds :: r.users[u]);
    ghost var second := r;
    r := DeleteMessages(r, set id | id in r.messages && r.messages[id].userId !in userIds);
    PrunedAgain(t.history, second.history, r.history, second.messages.Keys, r.messages.Keys);
  }

  lemma PrunedAgain(a: seq<HistoryRow>, b: seq<HistoryRow>, c: seq<HistoryRow>, live: set<string>, still: set<string>)
    requires HistoryPruned(a, b, live) && HistoryPruned(b, c, still) && still <= live
    ensures HistoryPruned(a, c, still)
  {
  }

  ghost predicate IsPruned(t: Tables, messageIds: set<string>, roomIds: set<string>, userIds: set<string>, r: Tables) {
    && r.rooms == (map id | id in t.rooms && id in roomIds :: t.rooms[id])
    && r.users == (map u | u in t.users && u in userIds :: t.users[u])
    && r.messages == (map id | id in t.messages && id in messageIds && t.messages[id].roomId in roomIds
                        && t.messages[id].userId in userIds :: t.messages[id])
    && HistoryPruned(t.history, r.history, r.messages.Keys)
  }

  /** Deletes rows of `messages`; their history goes with them. */
  method DeleteMessages(t: Tables, ids: set<string>) returns (r: Tables)
    requires HistoryLive(t.history, t.messages)
    ensures r.rooms == t.rooms && r.users == t.users
    ensures r.messages == (map id | id in t.messages && id !in ids :: t.messages[id])
    ensures HistoryPruned(t.history, r.history, r.messages.Keys) && HistoryLive(r.history, r.messages)
  {
    DropHistoryKeeps(t.history, ids);
    r := t.(messages := map id | id in t.messages && id !in ids :: t.messages[id],
            history := DropHistory(t.history, ids));
  }

  /** What remains is the history of the remaining messages, in full. */
  ghost predicate HistoryPruned(prior: seq<HistoryRow>, next: seq<HistoryRow>, live: set<string>) {
    && (forall id | id in live :: HistoryOf(next, id) == HistoryOf(prior, id))
    && (forall h | h in next :: h in prior && h.messageId in live)
  }

  function DropHistory(history: seq<HistoryRow>, ids: set<string>): seq<HistoryRow> {
    if history == [] then []
    else
      var rest, last := DropHistory(history[..|history| - 1], ids), history[|history| - 1];
      if last.messageId in ids then rest else rest + [last]
  }

  lemma {:induction false} DropHistoryKeeps(history: seq<HistoryRow>, ids: set<string>)
    ensures forall h | h in DropHistory(history, ids) :: h in history && h.messageId !in ids
    ensures forall id | id !in ids :: HistoryOf(DropHistory(history, ids), id) == HistoryOf(history, id)
  {
    if history != [] {
      var rest, last := history[..|history| - 1], history[|history| - 1];
      DropHistoryKeeps(rest, ids);
      forall id | id !in ids ensures HistoryOf(DropHistory(history, ids), id) == HistoryOf(history, id) {
        if last.messageId !in ids {
          HistoryOfAppend(DropHistory(rest, ids), last, id);
        }
      }
    }
  }

  lemma EntryIdsAre(s: Snapshot, env: SaveEnv, names: seq<string>)
    ensures EntryIds(RoomEntries(s, env, names)) == set k | 0 <= k < |names| :: RoomIdOf(s, env, names[k])
  {
    hide RoomIdOf;
    hide RoomRowFor;
    var entries := RoomEntries(s, env, names);
    assert forall k | 0 <= k < |names| :: entries[k].id == RoomIdOf(s, env, names[k]) && entries[k] in entries;
  }

  /** A stored message of the snapshot names a room of the snapshot. */
  ghost predicate Kept(ms: set<Message>, roomIds: set<string>, t: Tables) {
    forall id | id in Ids(ms) ::
      id in t.messages && t.messages[id].roomId in roomIds && t.messages[id].userId in Authors(ms)
  }

  /** No message of the snapshot is lost to a cascade: its room and its author are kept. */
  lemma KeptByPrune(s: Snapshot, env: SaveEnv, names: seq<string>, start: Tables, upserted: Tables)
    requires Storable(s, env) && RoomEnumeration(s, names) && Applied(start, Contents(s, env), upserted)
    ensures Kept(Contents(s, env), EntryIds(RoomEntries(s, env, names)), upserted)
  {
    hide Storable;
    hide Contents;
    hide RoomIdOf;
    EntryIdsAre(s, env, names);
    forall id | id in Ids(Contents(s, env)) ensures id in upserted.messages
      && upserted.messages[id].roomId in EntryIds(RoomEntries(s, env, names))
      && upserted.messages[id].userId in Authors(Contents(s, env))
    {
      var m :| m in Contents(s, env) && m.id == id;
      ContentsRoom(s, env, names, m);
      assert MessageSaved(start, m, upserted);
    }
  }

  lemma PrunedIsSaved(t: Tables, s: Snapshot, env: SaveEnv, names: seq<string>, start: Tables, upserted: Tables,
        r: Tables)
    requires RoomEnumeration(s, names) && UsersUpserted(t.users, s, UserIds(s), start.users)
    requires start == Tables(start.users, UpsertRooms(t.rooms, RoomEntries(s, env, names)), t.messages, t.history)
    requires UniqueRoomKeys(start.rooms) && Applied(start, Contents(s, env), upserted)
    requires Kept(Contents(s, env), EntryIds(RoomEntries(s, env, names)), upserted)
    requires IsPruned(upserted, Ids(Contents(s, env)), EntryIds(RoomEntries(s, env, names)),
                      UserIds(s) + Authors(Contents(s, env)), r)
    ensures Saved(t, s, env, names, r) && Consistent(r)
  {
    hide UpsertRooms; hide RoomEntries; hide Contents; hide UserIds; hide RoomEnumeration;
    hide UsersUpserted; hide AuthorsEnsured; hide MessageSaved; hide HistoryOf;
    var ms, entries := Contents(s, env), RoomEntries(s, env, names);
    assert r.messages == map id | id in upserted.messages && id in Ids(ms) :: upserted.messages[id];
    RoomsAfterPrune(t.rooms, entries, r.rooms);
    UsersAfterPrune(t.users, s, Authors(ms), UserIds(s), start.users, upserted.users, r.users);
    MessagesAfterPrune(t, start, ms, upserted, r);
    UpsertRoomsResult(t.rooms, entries);
  }

  lemma {:induction false} RoomsAfterPrune(rooms: map<string, RoomRow>, entries: seq<RoomEntry>,
        r: map<string, RoomRow>)
    requires r == map id | id in UpsertRooms(rooms, entries) && id in EntryIds(entries) ::
        UpsertRooms(rooms, entries)[id]
    ensures r == UpsertRooms(map[], entries)
  {
    UpsertRoomsResult(rooms, entries);
  }

  lemma UsersAfterPrune(users: map<string, UserRow>, s: Snapshot, authors: set<string>, ids: set<string>,
                        listed: map<string, UserRow>, upserted: map<string, UserRow>, r: map<string, UserRow>)
    requires ids == UserIds(s) && UsersUpserted(users, s, ids, listed) && AuthorsEnsured(listed, authors, upserted)
    requires r == map u | u in upserted && u in ids + authors :: upserted[u]
    ensures UsersSaved(users, s, authors, r)
  {
    hide UserIds;
    hide UserRowFor;
  }

  lemma MessagesAfterPrune(before: Tables, start: Tables, ms: set<Message>, upserted: Tables, r: Tables)
    requires start.messages == before.messages && start.history == before.history
    requires RowsUpserted(start, ms, upserted)
    requires r.messages == map id | id in upserted.messages && id in Ids(ms) :: upserted.messages[id]
    requires HistoryPruned(upserted.history, r.history, r.messages.Keys)
    ensures MessagesSaved(before, ms, r)
  {
    hide FullRow;
    hide RowAfter;
    hide HistoryOf;
    forall m | m in ms ensures MessageSaved(before, m, r) {
      assert m.id in Ids(ms) && MessageSaved(start, m, upserted);
    }
  }

  /** The keys among `keys` whose messages are in `room`, in the same order. */
  ghost function KeysIn(t: Tables, keys: seq<MessageKey>, room: string): (r: seq<MessageKey>)
    requires Consistent(t) && forall k | k in keys :: k.id in t.messages
    ensures forall k | k in r :: k in keys && t.rooms[t.messages[k.id].roomId].roomKey == room
  {
    if keys == [] then []
    else
      var last := keys[|keys| - 1];
      KeysIn(t, keys[..|keys| - 1], room)
      + if t.rooms[t.messages[last.id].roomId].roomKey == room then [last] else []
  }

  lemma {:induction false} KeysInComplete(t: Tables, keys: seq<MessageKey>, room: string)
    requires Consistent(t) && (forall k | k in keys :: k.id in t.messages) && Ascending(keys, MessageBefore)
    ensures Ascending(KeysIn(t, keys, room), MessageBefore)
    ensures forall k | k in keys && t.rooms[t.messages[k.id].roomId].roomKey == room :: k in KeysIn(t, keys, room)
  {
    if keys != [] {
      var rest := keys[..|keys| - 1];
      KeysInComplete(t, rest, room);
      assert keys == rest + [keys[|keys| - 1]];
      var r := KeysIn(t, rest, room);
      forall i | 0 <= i < |r| ensures MessageBefore(r[i], keys[|keys| - 1]) {
        assert r[i] in rest;
      }
    }
  }

  /** Distributing the sorted rows over the rooms leaves each room sorted. */
  lemma {:induction false} KeysInSorted(t: Tables, sorted: seq<MessageKey>, room: string)
    requires Consistent(t) && Ascending(sorted, MessageBefore)
    requires forall k | k in sorted :: k.id in t.messages
    requires Elements(sorted) == set id | id in t.messages :: MessageKeyOf(t, id)
    ensures LoadKeys(t, KeysIn(t, sorted, room)) == RoomMessages(t, room)
  {
    MessageBeforeIsOrder();
    KeysInComplete(t, sorted, room);
    var keys := KeysIn(t, sorted, room);
    forall k ensures k in keys <==> k in MessageKeysIn(t, room) {
      if k in keys {
        assert k in Elements(sorted);
      }
      if k in MessageKeysIn(t, room) {
        assert k in Elements(sorted);
      }
    }
    assert Elements(keys) == MessageKeysIn(t, room);
    SortSetUnique(keys, MessageBefore);
  }
}
