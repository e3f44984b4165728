/** The incremental save refines the full one: any run of `SaveMessage` after a full save leaves the
    messages a full save of the extended snapshot would leave. */
module StoreRefinement {
  import opened ChatTypes
  import opened Text
  import opened Sorting
  import opened StoreSchema
  import opened StoreSpec
  import opened StoreRoundTrip

  /** A message as readers compare it: blank text read as empty, and without the author's display
      name, which belongs to the user row. */
  function Plain(m: Message): Message {
    Unblank(m).(username := "")
  }

  function PlainAll(ms: seq<Message>): seq<Message> {
    seq(|ms|, i requires 0 <= i < |ms| => Plain(ms[i]))
  }

  /** The two databases load the same rooms with the same messages in the same order. */
  ghost predicate SameMessages(t: Tables, u: Tables)
    requires Consistent(t) && Consistent(u)
  {
    && RoomKeys(t) == RoomKeys(u)
    && forall room | room in RoomKeys(t) :: PlainAll(RoomMessages(t, room)) == PlainAll(RoomMessages(u, room))
  }

  /** Exactly the given messages are stored. */
  ghost predicate Holds(t: Tables, ms: set<Message>) {
    && t.messages.Keys == Ids(ms)
    && forall m | m in ms :: HoldsMessage(t, m)
  }

  ghost predicate HoldsMessage(t: Tables, m: Message) {
    && m.id in t.messages
    && t.messages[m.id].roomId == m.roomId && t.messages[m.id].createdAt == m.timestamp
    && Plain(LoadedMessage(t, m.id)) == Plain(m)
  }

  ghost predicate SameRooms(t: Tables, u: Tables) {
    && t.rooms.Keys == u.rooms.Keys
    && forall id | id in t.rooms :: t.rooms[id].roomKey == u.rooms[id].roomKey
  }

  /** What `Load` reads of the messages is determined by what is held. */
  lemma HeldDetermines(t: Tables, u: Tables, ms: set<Message>)
    requires Consistent(t) && Consistent(u) && Holds(t, ms) && Holds(u, ms) && SameRooms(t, u)
    ensures SameMessages(t, u)
  {
    hide RoomMessages; hide PlainAll; hide SameRow; hide Consistent; hide HoldsMessage;
    assert t.messages.Keys == u.messages.Keys == Ids(ms);
    forall id | id in t.messages ensures SameRow(t, u, id) {
      var m :| m in ms && m.id == id;
      HeldAlike(t, u, m);
    }
    SameRoomsKeys(t, u);
    hide SameRooms; hide RoomKeys; hide Ids;
    forall room | room in RoomKeys(t) ensures PlainAll(RoomMessages(t, room)) == PlainAll(RoomMessages(u, room)) {
      RoomAlike(t, u, room);
    }
  }

  lemma SameRoomsKeys(t: Tables, u: Tables)
    requires SameRooms(t, u)
    ensures RoomKeys(t) == RoomKeys(u)
  {
  }

  ghost predicate SameRow(t: Tables, u: Tables, id: string) {
    && id in t.messages && id in u.messages && t.messages[id].roomId == u.messages[id].roomId
    && MessageKeyOf(t, id) == MessageKeyOf(u, id) && Plain(LoadedMessage(t, id)) == Plain(LoadedMessage(u, id))
  }

  lemma HeldAlike(t: Tables, u: Tables, m: Message)
    requires HoldsMessage(t, m) && HoldsMessage(u, m)
    ensures SameRow(t, u, m.id)
  {
    hide Plain; hide LoadedMessage;
  }

  lemma RoomAlike(t: Tables, u: Tables, room: string)
    requires Consistent(t) && Consistent(u) && SameRooms(t, u) && t.messages.Keys == u.messages.Keys
    requires forall id | id in t.messages :: SameRow(t, u, id)
    ensures PlainAll(RoomMessages(t, room)) == PlainAll(RoomMessages(u, room))
  {
    hide Plain; hide LoadedMessage; hide MessageBefore; hide MessageKeysIn; hide SameRooms;
    SameKeysIn(t, u, room);
    MessageBeforeIsOrder();
    var keys := SortSet(MessageKeysIn(t, room), MessageBefore);
    KeysInStored(t, room);
    forall i | 0 <= i < |keys| ensures keys[i].id in t.messages && SameRow(t, u, keys[i].id) {
      assert keys[i] in Elements(keys);
    }
  }

  lemma KeysInStored(t: Tables, room: string)
    requires Consistent(t)
    ensures forall k | k in MessageKeysIn(t, room) :: k.id in t.messages
  {
  }

  lemma SameKeysIn(t: Tables, u: Tables, room: string)
    requires Consistent(t) && Consistent(u) && SameRooms(t, u) && t.messages.Keys == u.messages.Keys
    requires forall id | id in t.messages :: SameRow(t, u, id)
    ensures MessageKeysIn(t, room) == MessageKeysIn(u, room)
  {
    hide Plain; hide LoadedMessage;
    forall id | id in t.messages ensures t.rooms[t.messages[id].roomId].roomKey ==
        u.rooms[u.messages[id].roomId].roomKey
        && MessageKeyOf(t, id) == MessageKeyOf(u, id) {
      assert SameRow(t, u, id);
    }
  }

  lemma PlainOfRow(m: Message, row: MessageRow, username: string)
    requires row == FullRow(m) || row == IncrementalRow(m)
    ensures Plain(LoadRow(m.id, row, username)) == Plain(m)
  {
    RowRoundTrip(m, username);
    UnblankTwice(m);
  }

  /** A full save holds the snapshot's messages. */
  lemma SaveHolds(prior: Tables, s: Snapshot, env: SaveEnv, names: seq<string>, t: Tables)
    requires Saved(prior, s, env, names, t) && Unconflated(prior, Contents(s, env))
    ensures Holds(t, Contents(s, env))
  {
    hide Contents, Unblank, LoadRow, UsersSaved, UpsertRooms, RoomEntries, RoomEnumeration;
    hide Username; hide RowsConflated;
    forall m | m in Contents(s, env) ensures HoldsMessage(t, m) {
      MessageRestored(prior, Contents(s, env), t, m);
      PlainOfRestored(m, Username(t, m.userId));
    }
  }

  lemma PlainOfRestored(m: Message, username: string)
    ensures Plain(Restored(m, username)) == Plain(m)
  {
    UnblankTwice(m);
  }

  // ---- incremental saves ----

  datatype Addition = Addition(room: string, m: Message, meta: Metadata, now: int)

  function InsertAll(t: Tables, xs: seq<Addition>): Tables {
    if xs == [] then t
    else
      var x := xs[|xs| - 1];
      InsertMessage(InsertAll(t, xs[..|xs| - 1]), x.m, x.meta, x.now)
  }

  /** The server prepends a new message to its room. */
  function AddMessage(s: Snapshot, room: string, m: Message): Snapshot {
    s.(messages := s.messages[room := [m] + (if room in s.messages then s.messages[room] else [])])
  }

  function AddAll(s: Snapshot, xs: seq<Addition>): Snapshot {
    if xs == [] then s else AddMessage(AddAll(s, xs[..|xs| - 1]), xs[|xs| - 1].room, xs[|xs| - 1].m)
  }

  predicate Complete(m: Message) {
    !Blank(m.id) && !Blank(m.roomId) && !Blank(m.userId)
  }

  /** Every message that is saved has an ID, so none needs to be generated. */
  ghost predicate Identified(s: Snapshot) {
    forall room, i | room in s.messages && room != "" && 0 <= i < |s.messages[room]| :: !Blank(s.messages[room][i].id)
  }

  /** New messages: identified, filed under a known room and its ID, and with fresh IDs. */
  ghost predicate Additions(s: Snapshot, env: SaveEnv, t: Tables, xs: seq<Addition>) {
    && (forall k | 0 <= k < |xs| ::
          && xs[k].room in s.messages && xs[k].room != "" && Complete(xs[k].m)
          && xs[k].m.roomId == RoomIdOf(s, env, xs[k].room)
          && EffectiveRoomKey(xs[k].m, xs[k].meta) == xs[k].room
          && xs[k].m.id !in t.messages)
    && (forall j, k | 0 <= j < k < |xs| :: xs[j].m.id != xs[k].m.id)
  }

  ghost function Added(xs: seq<Addition>): set<Message> {
    set x | x in xs :: x.m
  }

  /** One incremental save succeeds and adds its message, leaving rooms and other messages alone. */
  lemma InsertHolds(t: Tables, ms: set<Message>, m: Message, meta: Metadata, now: int)
    requires Consistent(t) && Holds(t, ms) && Complete(m) && m.id !in t.messages
    requires m.roomId in t.rooms && t.rooms[m.roomId].roomKey == EffectiveRoomKey(m, meta)
    ensures Insertable(t, m, meta)
    ensures var t' := InsertMessage(t, m, meta, now);
      Consistent(t') && Holds(t', ms + {m}) && SameRooms(t, t')
  {
    hide Blank; hide Plain; hide EffectiveRoomKey; hide IncrementalRow; hide LoadRow; hide MergeUser; hide Consistent;
    assert Insertable(t, m, meta) by { KeyFree(t, m, meta); }
    InsertConsistent(t, m, meta, now);
    var t' := InsertMessage(t, m, meta, now);
    assert HoldsMessage(t', m) by {
      IncrementalRowKeys(m);
      PlainOfRow(m, IncrementalRow(m), Username(t', m.userId));
    }
    forall n | n in ms ensures HoldsMessage(t', n) {
      assert n.id in Ids(ms) && HoldsMessage(t, n);
      PlainIgnoresName(n.id, t.messages[n.id], Username(t, t.messages[n.id].userId),
          Username(t', t.messages[n.id].userId));
    }
    assert Ids(ms + {m}) == Ids(ms) + {m.id};
  }

  lemma KeyFree(t: Tables, m: Message, meta: Metadata)
    requires Consistent(t) && m.roomId in t.rooms && t.rooms[m.roomId].roomKey == EffectiveRoomKey(m, meta)
    ensures forall id | id in t.rooms && t.rooms[id].roomKey == EffectiveRoomKey(m, meta) :: id == m.roomId
  {
    hide EffectiveRoomKey;
  }

  lemma IncrementalRowKeys(m: Message)
    ensures IncrementalRow(m).roomId == m.roomId && IncrementalRow(m).userId == m.userId
    ensures IncrementalRow(m).createdAt == m.timestamp
  {
  }

  lemma PlainIgnoresName(id: string, row: MessageRow, a: string, b: string)
    ensures Plain(LoadRow(id, row, a)) == Plain(LoadRow(id, row, b))
  {
  }

  /** Known rooms of the snapshot are stored under their IDs. */
  ghost predicate RoomsKnown(s: Snapshot, env: SaveEnv, t: Tables) {
    forall room | room in s.messages && room != "" ::
      RoomIdOf(s, env, room) in t.rooms && t.rooms[RoomIdOf(s, env, room)].roomKey == room
  }

  /** Every save of the run succeeds. */
  ghost predicate AllInsertable(t: Tables, xs: seq<Addition>) {
    forall k | 0 <= k < |xs| :: Insertable(InsertAll(t, xs[..k]), xs[k].m, xs[k].meta)
  }

  lemma {:induction false} InsertAllHolds(s: Snapshot, env: SaveEnv, t: Tables, ms: set<Message>, xs: seq<Addition>)
    requires Consistent(t) && Holds(t, ms) && Additions(s, env, t, xs) && RoomsKnown(s, env, t)
    ensures Consistent(InsertAll(t, xs)) && Holds(InsertAll(t, xs), ms + Added(xs)) && SameRooms(t, InsertAll(t, xs))
    ensures AllInsertable(t, xs)
  {
    hide Consistent, Holds, InsertMessage, Insertable, RoomsKnown, Additions, AllInsertable;
    if xs == [] {
      assert ms + Added(xs) == ms;
      NoInsertions(t);
    } else {
      var rest, x := xs[..|xs| - 1], xs[|xs| - 1];
      AdditionsInit(s, env, t, xs);
      InsertAllHolds(s, env, t, ms, rest);
      var u := InsertAll(t, rest);
      AdditionKnown(s, env, t, ms, xs, u);
      InsertHolds(u, ms + Added(rest), x.m, x.meta, x.now);
      assert ms + Added(rest) + {x.m} == ms + Added(xs);
      AllInsertableStep(t, xs);
    }
  }

  lemma NoInsertions(t: Tables)
    ensures AllInsertable(t, [])
  {
  }

  lemma {:induction false} AllInsertableStep(t: Tables, xs: seq<Addition>)
    requires xs != []
    requires var rest, x := xs[..|xs| - 1], xs[|xs| - 1];
      AllInsertable(t, rest) && Insertable(InsertAll(t, rest), x.m, x.meta)
    ensures AllInsertable(t, xs)
  {
    hide Insertable; hide InsertAll;
    var rest := xs[..|xs| - 1];
    forall k | 0 <= k < |xs| ensures Insertable(InsertAll(t, xs[..k]), xs[k].m, xs[k].meta) {
      if k < |rest| {
        assert xs[..k] == rest[..k];
      } else {
        assert xs[..k] == rest;
      }
    }
  }

  lemma AdditionsInit(s: Snapshot, env: SaveEnv, t: Tables, xs: seq<Addition>)
    requires Additions(s, env, t, xs) && xs != []
    ensures Additions(s, env, t, xs[..|xs| - 1])
    ensures Added(xs) == Added(xs[..|xs| - 1]) + {xs[|xs| - 1].m}
  {
    hide RoomIdOf; hide Complete; hide EffectiveRoomKey;
    assert xs == xs[..|xs| - 1] + [xs[|xs| - 1]];
  }

  lemma AdditionKnown(s: Snapshot, env: SaveEnv, t: Tables, ms: set<Message>, xs: seq<Addition>, u: Tables)
    requires Additions(s, env, t, xs) && xs != [] && RoomsKnown(s, env, t) && SameRooms(t, u)
    requires Holds(t, ms) && Holds(u, ms + Added(xs[..|xs| - 1]))
    ensures var x := xs[|xs| - 1];
      && Complete(x.m) && x.m.id !in u.messages
      && x.m.roomId in u.rooms && u.rooms[x.m.roomId].roomKey == EffectiveRoomKey(x.m, x.meta)
  {
    hide RoomIdOf; hide Complete; hide EffectiveRoomKey; hide HoldsMessage;
    var x, rest := xs[|xs| - 1], xs[..|xs| - 1];
    assert Ids(ms + Added(rest)) == Ids(ms) + Ids(Added(rest));
    assert forall y | y in rest :: y.m.id != x.m.id;
  }

  // ---- the extended snapshot ----

  /** A message keeps what is stored of it when its room grows by one. */
  lemma FilledMoves(s: Snapshot, env: SaveEnv, room: string, m: Message, r: string, i: int)
    requires room in s.messages && room != "" && Complete(m)
    requires r in s.messages && r != "" && 0 <= i < |s.messages[r]| && !Blank(s.messages[r][i].id)
    ensures var s' := AddMessage(s, room, m);
      Filled(s', env, room, 0) == m && Filled(s', env, r, if r == room then i + 1 else i) == Filled(s, env, r, i)
  {
    hide RoomIdOf, Blank;
    SameRoomIds(s, AddMessage(s, room, m), env);
  }

  /** What was stored still is. */
  lemma StoredBefore(s: Snapshot, env: SaveEnv, room: string, m: Message, n: Message)
    requires room in s.messages && room != "" && Identified(s) && Complete(m) && n in Contents(s, env)
    ensures n in Contents(AddMessage(s, room, m), env)
  {
    hide RoomIdOf, Blank, Filled;
    var r, i :| r in s.messages && r != "" && 0 <= i < |s.messages[r]| && n == Filled(s, env, r, i);
    FilledMoves(s, env, room, m, r, i);
  }

  /** What is stored was stored before or is new. */
  lemma StoredAfter(s: Snapshot, env: SaveEnv, room: string, m: Message, n: Message)
    requires room in s.messages && room != "" && Identified(s) && Complete(m) &&
        n in Contents(AddMessage(s, room, m), env)
    ensures n in Contents(s, env) || n == m
  {
    hide RoomIdOf, Blank, Filled;
    var s' := AddMessage(s, room, m);
    var r, i :| r in s'.messages && r != "" && 0 <= i < |s'.messages[r]| && n == Filled(s', env, r, i);
    if r == room && i == 0 {
      NewFilled(s, env, room, m);
    } else {
      FilledMoves(s, env, room, m, r, if r == room then i - 1 else i);
    }
  }

  lemma NewFilled(s: Snapshot, env: SaveEnv, room: string, m: Message)
    requires room in s.messages && Complete(m)
    ensures Filled(AddMessage(s, room, m), env, room, 0) == m
  {
    hide RoomIdOf, Blank;
  }

  /** Adding a message moves the others of its room up by one. */
  lemma AddMessageFilled(s: Snapshot, env: SaveEnv, room: string, m: Message)
    requires room in s.messages && room != "" && Identified(s) && Complete(m)
    ensures Contents(AddMessage(s, room, m), env) == Contents(s, env) + {m} && Identified(AddMessage(s, room, m))
  {
    var s' := AddMessage(s, room, m);
    NewFilled(s, env, room, m);
    hide RoomIdOf, Blank, Filled;
    assert m in Contents(s', env) by {
      assert room in s'.messages && 0 < |s'.messages[room]| && Filled(s', env, room, 0) == m;
    }
    hide Contents;
    forall n ensures n in Contents(s', env) <==> n in Contents(s, env) + {m} {
      if n in Contents(s, env) { StoredBefore(s, env, room, m, n); }
      if n in Contents(s', env) { StoredAfter(s, env, room, m, n); }
    }
  }

  lemma SameRoomIds(s: Snapshot, s': Snapshot, env: SaveEnv)
    requires s'.roomIDs == s.roomIDs
    ensures forall name :: RoomIdOf(s', env, name) == RoomIdOf(s, env, name)
  {
    hide TrimSpace, HasPrefix;
  }

  /** With IDs given, what a save stores depends on the room assignment only. */
  lemma SameContents(s: Snapshot, env: SaveEnv, env': SaveEnv)
    requires Identified(s) && forall name | name in AllRooms(s) :: RoomIdOf(s, env', name) == RoomIdOf(s, env, name)
    ensures Contents(s, env') == Contents(s, env)
  {
    hide RoomIdOf, Blank, RoomNames;
    forall room, i | room in s.messages && room != "" && 0 <= i < |s.messages[room]|
      ensures Filled(s, env', room, i) == Filled(s, env, room, i)
    {
      assert !Blank(s.messages[room][i].id) && room in AllRooms(s);
    }
  }

  /** `ns` is `ms` with messages put in front. */
  predicate Prepended(ms: seq<Message>, ns: seq<Message>) {
    |ms| <= |ns| && ns[|ns| - |ms|..] == ms
  }

  lemma PrependedOne(ms: seq<Message>, ns: seq<Message>, m: Message)
    requires Prepended(ms, ns)
    ensures Prepended(ms, [m] + ns)
  {
    assert ([m] + ns)[|ns| - |ms| + 1..] == ns[|ns| - |ms|..];
  }

  /** Only the message map grows, each room at its front. */
  lemma {:induction false} AddAllGrows(s: Snapshot, xs: seq<Addition>)
    requires forall k | 0 <= k < |xs| :: xs[k].room in s.messages
    ensures var s' := AddAll(s, xs);
      && s' == s.(messages := s'.messages) && s'.messages.Keys == s.messages.Keys
      && forall room | room in s.messages :: Prepended(s.messages[room], s'.messages[room])
  {
    if xs == [] {
      assert forall room | room in s.messages :: Prepended(s.messages[room], s.messages[room]);
    } else {
      AddAllGrows(s, xs[..|xs| - 1]);
      hide Prepended;
      var t, x := AddAll(s, xs[..|xs| - 1]), xs[|xs| - 1];
      PrependedOne(s.messages[x.room], t.messages[x.room], x.m);
    }
  }

  lemma {:induction false} AddAllContents(s: Snapshot, env: SaveEnv, xs: seq<Addition>)
    requires Identified(s)
    requires forall k | 0 <= k < |xs| :: xs[k].room in s.messages && xs[k].room != "" && Complete(xs[k].m)
    ensures Identified(AddAll(s, xs)) && Contents(AddAll(s, xs), env) == Contents(s, env) + Added(xs)
  {
    hide Complete, Contents, Identified, AddMessage;
    if xs == [] {
      assert Contents(s, env) + Added(xs) == Contents(s, env);
    } else {
      var rest, x := xs[..|xs| - 1], xs[|xs| - 1];
      AddAllContents(s, env, rest);
      AddAllGrows(s, rest);
      AddMessageFilled(AddAll(s, rest), env, x.room, x.m);
      assert xs == rest + [x];
      assert Added(xs) == Added(rest) + {x.m};
      assert Contents(s, env) + Added(rest) + {x.m} == Contents(s, env) + Added(xs);
    }
  }

  lemma SavedRoomKeys(prior: Tables, s: Snapshot, env: SaveEnv, names: seq<string>, t: Tables)
    requires Storable(s, env) && Saved(prior, s, env, names, t)
    ensures RoomsUnder(s, env, t)
  {
    hide RoomIdOf; hide UpsertRooms; hide AllRooms; hide MessagesSaved; hide UsersSaved; hide Contents;
    StorableIds(s, env);
    RoomsStoredAll(s, env, names, t.rooms);
    forall name | name in AllRooms(s)
      ensures RoomIdOf(s, env, name) in t.rooms && t.rooms[RoomIdOf(s, env, name)].roomKey == name {
      assert name in Elements(names);
      var k :| 0 <= k < |names| && names[k] == name;
    }
    forall id | id in t.rooms ensures exists name :: name in AllRooms(s) && id == RoomIdOf(s, env, name) {
      var k :| 0 <= k < |names| && id == RoomIdOf(s, env, names[k]);
      assert names[k] in Elements(names);
    }
  }

  ghost predicate RoomsUnder(s: Snapshot, env: SaveEnv, t: Tables) {
    && t.rooms.Keys == (set name | name in AllRooms(s) :: RoomIdOf(s, env, name))
    && forall name | name in AllRooms(s) ::
         RoomIdOf(s, env, name) in t.rooms && t.rooms[RoomIdOf(s, env, name)].roomKey == name
  }

  lemma RoomsUnderKnown(s: Snapshot, env: SaveEnv, t: Tables)
    requires RoomsUnder(s, env, t)
    ensures RoomsKnown(s, env, t)
  {
    hide RoomIdOf;
  }

  /** Two saves with the same rooms and the same assignment store the same rooms. */
  lemma SameAssignment(s: Snapshot, s': Snapshot, env: SaveEnv, env': SaveEnv, t: Tables, u: Tables)
    requires s' == s.(messages := s'.messages) && s'.messages.Keys == s.messages.Keys
    requires forall name | name in AllRooms(s) :: RoomIdOf(s, env', name) == RoomIdOf(s, env, name)
    requires RoomsUnder(s, env, t) && RoomsUnder(s', env', u)
    ensures SameRooms(t, u)
  {
    hide TrimSpace; hide RoomNames;
    assert AllRooms(s') == AllRooms(s);
    forall name | name in AllRooms(s) ensures RoomIdOf(s', env', name) == RoomIdOf(s, env, name) {
      assert RoomIdOf(s', env', name) == RoomIdOf(s, env', name);
    }
  }

  /** The IDs a save would generate are not in use. */
  ghost predicate GeneratesNew(s: Snapshot, env: SaveEnv, t: Tables) {
    forall room, i | room in s.messages && room != "" && 0 <= i < |s.messages[room]| && Blank(s.messages[room][i].id) ::
      env.messageUuid(room, i) !in t.messages
  }

  /** A message without an ID is stored under the one generated for it. */
  lemma GeneratedStored(prior: Tables, s: Snapshot, env: SaveEnv, names: seq<string>, t: Tables, room: string, i: int)
    requires Saved(prior, s, env, names, t)
    requires room in s.messages && room != "" && 0 <= i < |s.messages[room]| && Blank(s.messages[room][i].id)
    ensures env.messageUuid(room, i) in t.messages
  {
    hide RoomIdOf, Blank, RoomEnumeration, UsersSaved, UpsertRooms;
    var m := Filled(s, env, room, i);
    assert m in Contents(s, env) && m.id in Ids(Contents(s, env));
  }

  /** A message without an ID is stored by another full save under an ID nobody else has. */
  lemma {:induction false} RekeyedDiffers(s: Snapshot, env: SaveEnv, xs: seq<Addition>, t: Tables,
                       prior: Tables, env': SaveEnv, names': seq<string>, full: Tables)
    requires Consistent(t) && Consistent(full) && (forall k | 0 <= k < |xs| :: xs[k].room in s.messages)
    requires Saved(prior, AddAll(s, xs), env', names', full)
    requires GeneratesNew(AddAll(s, xs), env', t) && !Identified(s)
    ensures !SameMessages(t, full)
  {
    hide Blank, Saved, AddAll, SameMessages, RoomMessages, RoomKeys;
    var s' := AddAll(s, xs);
    AddAllGrows(s, xs);
    var room, i :| room in s.messages && room != "" && 0 <= i < |s.messages[room]| && Blank(s.messages[room][i].id);
    var j := |s'.messages[room]| - |s.messages[room]| + i;
    assert s'.messages[room][j] == s'.messages[room][|s'.messages[room]| - |s.messages[room]|..][i];
    var id := env'.messageUuid(room, j);
    GeneratedStored(prior, s', env', names', full, room, j);
    RowLoaded(full, id);
    if SameMessages(t, full) {
      LoadedAlike(t, full, full.rooms[full.messages[id].roomId].roomKey, id);
    }
  }

  lemma LoadedAlike(t: Tables, u: Tables, room: string, id: string)
    requires Consistent(t) && Consistent(u) && SameMessages(t, u) && room in RoomKeys(u)
    requires id in u.messages && LoadedMessage(u, id) in RoomMessages(u, room)
    ensures id in t.messages
  {
    hide Plain, Consistent, RoomMessages;
    LoadedMessageKey(u, id);
    var ms, ns := RoomMessages(u, room), RoomMessages(t, room);
    var i :| 0 <= i < |ms| && ms[i] == LoadedMessage(u, id);
    assert PlainAll(ns)[i] == PlainAll(ms)[i] && |PlainAll(ns)| == |ns|;
    PlainId(ms[i]);
    PlainId(ns[i]);
    LoadedFromRow(t, room, ns[i]);
  }

  lemma PlainId(m: Message)
    ensures Plain(m).id == m.id
  {
  }

  /** REFINEMENT. After a full save of `s`, saving the new messages one by one succeeds each time. It
      leaves the rooms and messages that a full save of the extended snapshot leaves if and only if every
      message of `s` has an ID: one without is given a new ID by every full save, its old row pruned. */
  lemma {:induction false} IncrementalRefinesFull(prior: Tables, s: Snapshot, env: SaveEnv, names: seq<string>,
        t: Tables, xs: seq<Addition>, prior': Tables, env': SaveEnv, names': seq<string>, full: Tables)
    requires Storable(s, env) && Saved(prior, s, env, names, t) && Unconflated(prior, Contents(s, env))
    requires Additions(s, env, t, xs)
    requires Storable(AddAll(s, xs), env') && Saved(prior', AddAll(s, xs), env', names', full)
    requires Unconflated(prior', Contents(AddAll(s, xs), env'))
    requires forall name | name in AllRooms(s) :: RoomIdOf(s, env', name) == RoomIdOf(s, env, name)
    requires GeneratesNew(AddAll(s, xs), env', InsertAll(t, xs))
    ensures AllInsertable(t, xs) && Consistent(InsertAll(t, xs)) && Consistent(full)
    ensures SameMessages(InsertAll(t, xs), full) <==> Identified(s)
  {
    hide Storable, Saved, Contents, Holds, AllInsertable, Unconflated, SameMessages, Consistent, InsertAll, Identified;
    hide Complete, EffectiveRoomKey, RoomNames, Blank, TrimSpace, GeneratesNew;
    SavedConsistent(prior, s, env, names, t);
    SavedConsistent(prior', AddAll(s, xs), env', names', full);
    SaveHolds(prior, s, env, names, t);
    SavedRoomKeys(prior, s, env, names, t);
    RoomsUnderKnown(s, env, t);
    InsertAllHolds(s, env, t, Contents(s, env), xs);
    if Identified(s) {
      InsertedAsFull(s, env, t, xs, prior', env', names', full);
    } else {
      RekeyedDiffers(s, env, xs, InsertAll(t, xs), prior', env', names', full);
    }
  }

  lemma {:induction false} InsertedAsFull(s: Snapshot, env: SaveEnv, t: Tables, xs: seq<Addition>,
                       prior': Tables, env': SaveEnv, names': seq<string>, full: Tables)
    requires Identified(s) && Additions(s, env, t, xs) && RoomsUnder(s, env, t)
    requires Storable(AddAll(s, xs), env') && Saved(prior', AddAll(s, xs), env', names', full) && Consistent(full)
    requires Unconflated(prior', Contents(AddAll(s, xs), env'))
    requires forall name | name in AllRooms(s) :: RoomIdOf(s, env', name) == RoomIdOf(s, env, name)
    requires Consistent(InsertAll(t, xs)) && SameRooms(t, InsertAll(t, xs))
    requires Holds(InsertAll(t, xs), Contents(s, env) + Added(xs))
    ensures SameMessages(InsertAll(t, xs), full)
  {
    hide Storable, Saved, Contents, Holds, Unconflated, SameMessages, Consistent, InsertAll, Identified;
    hide Complete, EffectiveRoomKey, RoomNames, Blank, TrimSpace, AllRooms, RoomsUnder;
    var s' := AddAll(s, xs);
    AddAllContents(s, env', xs);
    AddAllGrows(s, xs);
    SameContents(s, env, env');
    SaveHolds(prior', s', env', names', full);
    SavedRoomKeys(prior', s', env', names', full);
    SameAssignment(s, s', env, env', t, full);
    assert SameRooms(InsertAll(t, xs), full);
    hide SameRooms;
    HeldDetermines(InsertAll(t, xs), full, Contents(s', env'));
  }

  /** The author's display name is the one thing the two saves can disagree on: it agrees exactly when
      the message carries the name the snapshot lists for its author. */
  lemma AuthorNameAgrees(prior: Tables, s: Snapshot, env: SaveEnv, names: seq<string>, full: Tables,
                         t: Tables, m: Message, meta: Metadata, now: int)
    requires Saved(prior, s, env, names, full) && m.userId in UserIds(s)
    ensures Username(InsertMessage(t, m, meta, now), m.userId) == Username(full, m.userId)
       <==> TrimSpace(m.username) == TrimSpace(Lookup(s.users, m.userId, ""))
  {
    hide TrimSpace, UserIds, Contents, UpsertRooms, RoomEntries, RoomEnumeration, MessagesSaved;
    assert full.users[m.userId] == UserRowFor(s, m.userId);
    TrimTwice(Lookup(s.users, m.userId, ""));
    assert InsertMessage(t, m, meta, now).users[m.userId].username == m.username;
  }
}
