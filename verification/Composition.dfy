/** What the components promise each other: the running server keeps the room assignments that saving
    relies on, and a loaded room is in the order that paging relies on. */
module Composition {
  import opened ChatTypes
  import opened Text
  import opened Sorting
  import opened StoreSpec
  import opened StoreRoundTrip
  import opened StoreRuns
  import opened StoreSchema
  import Lifecycle = MessageLifecycle
  import Pagination
  import ServerRooms

  /** Whatever the server does between two saves, rooms already stored keep their IDs and no two rooms
      of the next snapshot share one. */
  lemma {:induction false} RunsKeepAssignments(r: ServerRooms.Rooms, events: seq<ServerRooms.Event>,
        lower: string -> string, rows: map<string, RoomRow>, s: Snapshot, env: SaveEnv)
    requires ServerRooms.Consistent(r) && ServerRooms.LegalRun(r, events, lower)
    requires s.roomIDs == ServerRooms.Run(r, events, lower).roomIds
    requires forall room | room in s.roomIDs :: TrimSpace(s.roomIDs[room]) == s.roomIDs[room]
    requires forall room | room in AllRooms(s) :: room in s.roomIDs
    requires forall id | id in rows :: rows[id].roomKey in r.roomIds && r.roomIds[rows[id].roomKey] == id
    ensures StableRooms(rows, s, env) && DistinctRoomIds(s, env)
  {
    hide TrimSpace, AllRooms, ServerRooms.Run, ServerRooms.LegalRun;
    ServerRooms.RunKeeps(r, events, lower, 0);
    assert events[..0] == [] && ServerRooms.Run(r, [], lower) == r by { RunNothing(r, lower); }
    var after := ServerRooms.Run(r, events, lower);
    forall a, b | a in AllRooms(s) && b in AllRooms(s) && RoomIdOf(s, env, a) == RoomIdOf(s, env, b) ensures a == b {
      assert after.roomsById[after.roomIds[a]] == a && after.roomsById[after.roomIds[b]] == b;
    }
  }

  lemma {:induction false} RunNothing(r: ServerRooms.Rooms, lower: string -> string)
    ensures ServerRooms.Run(r, [], lower) == r
  {
  }

  // ---- messages in memory ----

  ghost predicate Has(rooms: Lifecycle.Rooms, room: string, i: int) {
    room in rooms && 0 <= i < |rooms[room]|
  }

  ghost predicate In(rooms: Lifecycle.Rooms, m: Message) {
    exists room, i :: Has(rooms, room, i) && rooms[room][i] == m
  }

  ghost predicate HasId(rooms: Lifecycle.Rooms, id: string) {
    exists m :: In(rooms, m) && m.id == id
  }

  /** No ID occurs twice, a message knows the ID of its room, and one without an ID replies to nothing. */
  ghost predicate Orderly(rooms: Lifecycle.Rooms, idOf: string -> string) {
    && TrimmedKeys(rooms)
    && (forall room, i | Has(rooms, room, i) ::
          rooms[room][i].roomId == idOf(room) && (Blank(rooms[room][i].id) ==> rooms[room][i].replyTo.None?))
    && forall room, i, other, j | Has(rooms, room, i) && Has(rooms, other, j) && rooms[room][i].id == rooms[other][j].id
         && !Blank(rooms[room][i].id) :: room == other && i == j
  }

  /** What an event brings in is new: names are trimmed, and an ID is fresh, in memory and database. */
  ghost predicate BringsNew(rooms: Lifecycle.Rooms, stored: set<string>, idOf: string -> string, e: Lifecycle.Event) {
    match e
    case OpenRoom(room) => TrimSpace(room) == room
    case Post(room, m) =>
      && TrimSpace(room) == room && m.roomId == idOf(room)
      && (Blank(m.id) ==> m.replyTo.None?) && m.id !in stored && (Blank(m.id) || !HasId(rooms, m.id))
    case Send(room, id, _, _, _, roomId, _, _, _) =>
      roomId == idOf(room) && !Blank(id) && id !in stored && !HasId(rooms, id)
    case Vote(_, _, _, _, _) => true
    case Edit(_, _, _, _, _) => true
    case Delete(_, _, _, _) => true
    case Grant(_, _, _, _, _, _, _, _) => true
    case Deny(_, _, _) => true
  }

  ghost predicate BringNew(rooms: Lifecycle.Rooms, stored: set<string>, idOf: string -> string,
        events: seq<Lifecycle.Event>)
  {
    forall n | 0 <= n < |events| :: BringsNew(Lifecycle.Run(rooms, events[..n]), stored, idOf, events[n])
  }

  /** Same rooms, as many messages, and each is what became of the one in its place. */
  ghost predicate SamePlaces(s: Lifecycle.Rooms, t: Lifecycle.Rooms) {
    && t.Keys == s.Keys
    && (forall room | room in s :: |t[room]| == |s[room]|)
    && forall room, i | Has(s, room, i) :: Lifecycle.Becomes(s[room][i], t[room][i])
  }

  lemma {:induction false} ChangesInPlace(s: Lifecycle.Rooms, e: Lifecycle.Event)
    requires Lifecycle.AllSound(s) && !e.OpenRoom? && !e.Post? && !e.Send?
    ensures SamePlaces(s, Lifecycle.Next(s, e))
  {
    Lifecycle.NextKeeps(s, e);
    var t := Lifecycle.Next(s, e);
    SameSizes(s, e);
    hide Lifecycle.Next, Lifecycle.Becomes, Lifecycle.AllSound;
    forall room, i | Has(s, room, i) ensures Lifecycle.Becomes(s[room][i], t[room][i]) {
      assert Lifecycle.ListBecomes(s[room], t[room]);
    }
  }

  lemma {:induction false} SameSizes(s: Lifecycle.Rooms, e: Lifecycle.Event)
    requires !e.OpenRoom? && !e.Post? && !e.Send?
    ensures var t := Lifecycle.Next(s, e); t.Keys == s.Keys && forall room | room in s :: |t[room]| == |s[room]|
  {
    hide Lifecycle.TargetIn, Lifecycle.GrantTarget, Lifecycle.Voted, Lifecycle.Edited, Lifecycle.Deleted;
    hide Lifecycle.Granted, Lifecycle.Marked;
  }

  lemma {:induction false} InPlaceOrderly(s: Lifecycle.Rooms, t: Lifecycle.Rooms, idOf: string -> string)
    requires Orderly(s, idOf) && SamePlaces(s, t)
    ensures Orderly(t, idOf)
  {
    hide TrimSpace, Blank, Lifecycle.VersionsExtend;
    assert forall room, i | Has(t, room, i) :: Has(s, room, i);
  }

  lemma {:induction false} OpenedOrderly(s: Lifecycle.Rooms, room: string, idOf: string -> string)
    requires Orderly(s, idOf) && room !in s && TrimSpace(room) == room
    ensures Orderly(s[room := []], idOf)
  {
    hide TrimSpace, Blank;
    assert forall other, i | Has(s[room := []], other, i) :: Has(s, other, i);
  }

  lemma {:induction false} PrependedOrderly(s: Lifecycle.Rooms, room: string, m: Message, idOf: string -> string)
    requires Orderly(s, idOf) && TrimSpace(room) == room && m.roomId == idOf(room)
    requires (Blank(m.id) ==> m.replyTo.None?) && (Blank(m.id) || !HasId(s, m.id))
    ensures Orderly(s[room := [m] + Lookup(s, room, [])], idOf)
  {
    hide TrimSpace, Blank;
    var t := s[room := [m] + Lookup(s, room, [])];
    forall other, i | Has(t, other, i) && !(other == room && i == 0)
      ensures Has(s, other, if other == room then i - 1 else i)
      ensures t[other][i] == s[other][if other == room then i - 1 else i] && HasId(s, t[other][i].id)
    {
      assert Has(s, other, if other == room then i - 1 else i);
      assert In(s, t[other][i]);
    }
    hide HasId;
  }

  lemma {:induction false} NextOrderly(s: Lifecycle.Rooms, stored: set<string>, idOf: string -> string,
        e: Lifecycle.Event)
    requires Lifecycle.AllSound(s) && Orderly(s, idOf) && BringsNew(s, stored, idOf, e)
    ensures Orderly(Lifecycle.Next(s, e), idOf)
  {
    hide Orderly, HasId, TrimSpace, Blank, Lifecycle.AllSound, Lifecycle.Plain;
    match e
    case OpenRoom(room) => if room !in s { OpenedOrderly(s, room, idOf); }
    case Post(room, m) => PrependedOrderly(s, room, m, idOf);
    case Send(room, id, now, username, actor, roomId, content, encrypted, replyTo) =>
      if room in s {
        NameTrimmed(s, idOf, room);
        var m := Lifecycle.NewMessage(id, now, username, actor, roomId, content, encrypted, replyTo);
        PrependedOrderly(s, room, m, idOf);
      }
    case Vote(_, _, _, _, _) => ChangesInPlace(s, e); InPlaceOrderly(s, Lifecycle.Next(s, e), idOf);
    case Edit(_, _, _, _, _) => ChangesInPlace(s, e); InPlaceOrderly(s, Lifecycle.Next(s, e), idOf);
    case Delete(_, _, _, _) => ChangesInPlace(s, e); InPlaceOrderly(s, Lifecycle.Next(s, e), idOf);
    case Grant(_, _, _, _, _, _, _, _) => ChangesInPlace(s, e); InPlaceOrderly(s, Lifecycle.Next(s, e), idOf);
    case Deny(_, _, _) => ChangesInPlace(s, e); InPlaceOrderly(s, Lifecycle.Next(s, e), idOf);
  }

  lemma NameTrimmed(s: Lifecycle.Rooms, idOf: string -> string, room: string)
    requires Orderly(s, idOf) && room in s
    ensures TrimSpace(room) == room
  {
  }

  /** Over any run that brings in only what is new, memory stays orderly. */
  lemma {:induction false} RunOrderly(rooms: Lifecycle.Rooms, stored: set<string>, idOf: string -> string,
        events: seq<Lifecycle.Event>)
    requires Lifecycle.AllSound(rooms) && Orderly(rooms, idOf) && BringNew(rooms, stored, idOf, events)
    ensures Orderly(Lifecycle.Run(rooms, events), idOf)
  {
    hide Orderly, BringsNew, Lifecycle.AllSound, Lifecycle.Next;
    if events != [] {
      var before, e := events[..|events| - 1], events[|events| - 1];
      BringNewBefore(rooms, stored, idOf, events, |events| - 1);
      RunOrderly(rooms, stored, idOf, before);
      Lifecycle.RunKeeps(rooms, before, 0);
      assert BringsNew(Lifecycle.Run(rooms, before), stored, idOf, e);
      NextOrderly(Lifecycle.Run(rooms, before), stored, idOf, e);
    }
  }

  lemma {:induction false} BringNewBefore(rooms: Lifecycle.Rooms, stored: set<string>, idOf: string -> string,
        events: seq<Lifecycle.Event>, n: nat)
    requires BringNew(rooms, stored, idOf, events) && n <= |events|
    ensures BringNew(rooms, stored, idOf, events[..n])
  {
    hide BringsNew, Lifecycle.Run;
    assert forall k | 0 <= k < n :: events[..n][k] == events[k] && events[..n][..k] == events[..k];
  }

  // ---- messages in memory and in the database ----

  /** A message that the database also holds, under its ID, has the reply target it has there. */
  ghost predicate RepliesAgree(rooms: Lifecycle.Rooms, t: Tables) {
    forall room, i | Has(rooms, room, i) && rooms[room][i].id in t.messages ::
      rooms[room][i].replyTo == t.messages[rooms[room][i].id].replyTo
  }

  lemma {:induction false} NextAgrees(s: Lifecycle.Rooms, t: Tables, idOf: string -> string, e: Lifecycle.Event)
    requires Lifecycle.AllSound(s) && RepliesAgree(s, t) && BringsNew(s, t.messages.Keys, idOf, e)
    ensures RepliesAgree(Lifecycle.Next(s, e), t)
  {
    hide HasId, TrimSpace, Blank, Lifecycle.AllSound, Lifecycle.Plain, Lifecycle.VersionsExtend;
    var n := Lifecycle.Next(s, e);
    if !e.OpenRoom? && !e.Post? && !e.Send? {
      ChangesInPlace(s, e);
      hide Lifecycle.Next;
      assert forall room, i | Has(n, room, i) :: Has(s, room, i);
    } else {
      forall other, i | Has(n, other, i) && n[other][i].id in t.messages
        ensures n[other][i].replyTo == t.messages[n[other][i].id].replyTo
      {
        assert Has(s, other, i) || Has(s, other, i - 1);
      }
    }
  }

  lemma {:induction false} RunAgrees(rooms: Lifecycle.Rooms, t: Tables, idOf: string -> string,
        events: seq<Lifecycle.Event>)
    requires Lifecycle.AllSound(rooms) && RepliesAgree(rooms, t) && BringNew(rooms, t.messages.Keys, idOf, events)
    ensures RepliesAgree(Lifecycle.Run(rooms, events), t)
  {
    hide RepliesAgree, BringsNew, Lifecycle.AllSound, Lifecycle.Next;
    if events != [] {
      var before, e := events[..|events| - 1], events[|events| - 1];
      BringNewBefore(rooms, t.messages.Keys, idOf, events, |events| - 1);
      RunAgrees(rooms, t, idOf, before);
      Lifecycle.RunKeeps(rooms, before, 0);
      assert BringsNew(Lifecycle.Run(rooms, before), t.messages.Keys, idOf, e);
      NextAgrees(Lifecycle.Run(rooms, before), t, idOf, e);
    }
  }

  /** The reply target that belongs to an ID, in the database at the start or in memory at the end. */
  ghost function ReplyIn(t: Tables, rooms: Lifecycle.Rooms): string -> Option<int> {
    (id: string) => if id in t.messages then t.messages[id].replyTo
                    else if HasId(rooms, id) then ReplyOf(rooms, id) else None
  }

  ghost function ReplyOf(rooms: Lifecycle.Rooms, id: string): Option<int>
    requires HasId(rooms, id)
  {
    var m :| In(rooms, m) && m.id == id;
    m.replyTo
  }

  /** A message of an earlier state lives on in the last one. */
  lemma LivesOn(rooms: Lifecycle.Rooms, events: seq<Lifecycle.Event>, n: nat, m: Message) returns (later: Message)
    requires Lifecycle.AllSound(rooms) && n <= |events| && In(Lifecycle.Run(rooms, events[..n]), m)
    ensures In(Lifecycle.Run(rooms, events), later) && Lifecycle.Becomes(m, later)
    ensures Lifecycle.Sound(m)
  {
    hide Lifecycle.Becomes, Lifecycle.Sound, Lifecycle.Run, Lifecycle.AllSound;
    Lifecycle.RunKeeps(rooms, events, n);
    Lifecycle.RunKeeps(rooms, events[..n], 0);
    var before, after := Lifecycle.Run(rooms, events[..n]), Lifecycle.Run(rooms, events);
    var room, i :| Has(before, room, i) && before[room][i] == m;
    Lifecycle.SoundAt(before, room, i);
    assert Lifecycle.ListBecomes(before[room], after[room]);
    var k := |after[room]| - |before[room]| + i;
    later := after[room][k];
    assert Has(after, room, k);
  }

  /** In orderly memory a reply target belongs to the ID. */
  lemma {:induction false} ReplyById(rooms: Lifecycle.Rooms, idOf: string -> string, t: Tables, m: Message)
    requires Orderly(rooms, idOf) && RepliesAgree(rooms, t) && In(rooms, m)
    ensures m.replyTo == ReplyIn(t, rooms)(m.id) && (Blank(m.id) ==> m.replyTo.None?)
  {
    hide TrimSpace, Blank;
    var room, i :| Has(rooms, room, i) && rooms[room][i] == m;
    if m.id !in t.messages {
      assert HasId(rooms, m.id);
      var n :| In(rooms, n) && n.id == m.id && ReplyOf(rooms, m.id) == n.replyTo;
      var other, j :| Has(rooms, other, j) && rooms[other][j] == n;
    }
  }

  /** What a server and its database have in common: rooms and IDs are those of `idOf`, no ID is blank,
      and what is stored is sound. */
  ghost predicate Sane(t: Tables, idOf: string -> string) {
    && Consistent(t) && Tidy(t) && Lifecycle.AllSound(MessagesByRoom(t))
    && (forall id | id in t.rooms :: idOf(t.rooms[id].roomKey) == id)
    && forall id | id in t.messages :: !Blank(id)
  }

  /** A new database is one a server can start on. */
  lemma NewDatabaseSane(idOf: string -> string)
    ensures Sane(Tables(map[], map[], map[], []), idOf)
  {
  }

  /** A server starts on the messages of its database, or with empty lists if told to clear them. */
  ghost predicate StartsOn(rooms: Lifecycle.Rooms, t: Tables)
    requires Consistent(t)
  {
    rooms == MessagesByRoom(t) || rooms == map room | room in RoomKeys(t) :: []
  }

  /** A loaded message is the one its row gives, and its place gives its row. */
  lemma {:induction false} LoadedAt(t: Tables, room: string, i: int)
    requires Consistent(t) && Has(MessagesByRoom(t), room, i)
    ensures var m := MessagesByRoom(t)[room][i];
      && m.id in t.messages && m == LoadedMessage(t, m.id) && t.rooms[t.messages[m.id].roomId].roomKey == room
      && forall j | Has(MessagesByRoom(t), room, j) && MessagesByRoom(t)[room][j].id == m.id :: i == j
  {
    hide LoadRow, Username, Consistent;
    var ms := RoomMessages(t, room);
    LoadedFromRow(t, room, ms[i]);
    LoadedInOrder(t, room);
    forall j | 0 <= j < |ms| && ms[j].id == ms[i].id ensures i == j {
      LoadedFromRow(t, room, ms[j]);
      Pagination.EarlierIrreflexive(ms[i], ms[j]);
      hide LoadedMessage, RoomMessages, Earlier;
    }
  }

  lemma {:induction false} StartSound(rooms: Lifecycle.Rooms, t: Tables, idOf: string -> string)
    requires Sane(t, idOf) && StartsOn(rooms, t)
    ensures Lifecycle.AllSound(rooms) && Orderly(rooms, idOf) && RepliesAgree(rooms, t)
  {
    hide Lifecycle.Sound, RoomMessages, TrimSpace, Blank, Username;
    forall room, i | Has(rooms, room, i)
      ensures rooms[room][i].id in t.messages && rooms[room][i].replyTo == t.messages[rooms[room][i].id].replyTo
      ensures rooms[room][i].roomId == idOf(room) && !Blank(rooms[room][i].id)
      ensures forall other, j | Has(rooms, other, j) && rooms[other][j].id == rooms[room][i].id ::
          room == other && i == j
    {
      LoadedAt(t, room, i);
      forall other, j | Has(rooms, other, j) && rooms[other][j].id == rooms[room][i].id
        ensures room == other && i == j
      {
        LoadedAt(t, other, j);
      }
    }
  }

  // ---- saving ----

  /** A full save of the server's messages: rooms go by their IDs, and generated IDs are new and differ. */
  ghost predicate SnapshotOf(rooms: Lifecycle.Rooms, final: Lifecycle.Rooms, stored: set<string>,
        idOf: string -> string, s: Snapshot, env: SaveEnv)
  {
    && s.messages == rooms
    && DistinctRoomIds(s, env) && (forall room | room in AllRooms(s) :: RoomIdOf(s, env, room) == idOf(room))
    && (forall room, i | Has(rooms, room, i) && Blank(rooms[room][i].id) :: var id := env.messageUuid(room, i);
          !Blank(id) && !HasId(final, id) && id !in stored)
    && forall room, i, other, j | Has(rooms, room, i) && Has(rooms, other, j)
         && env.messageUuid(room, i) == env.messageUuid(other, j) :: room == other && i == j
  }

  /** The saves of a running server: full ones of its messages at some moment, incremental ones of a
      message with an ID that it has at that moment. */
  ghost predicate SavesOf(start: Lifecycle.Rooms, events: seq<Lifecycle.Event>, stored: set<string>,
        idOf: string -> string, steps: seq<Step>, at: seq<nat>)
  {
    && |at| == |steps|
    && forall k | 0 <= k < |steps| :: at[k] <= |events| &&
         match steps[k]
         case FullStep(s, env, _) =>
           SnapshotOf(Lifecycle.Run(start, events[..at[k]]), Lifecycle.Run(start, events), stored, idOf, s, env)
         case InsertStep(m, _, _) => In(Lifecycle.Run(start, events[..at[k]]), m)
  }

  /** An orderly memory can be saved. */
  lemma {:induction false} OrderlyStorable(rooms: Lifecycle.Rooms, final: Lifecycle.Rooms, stored: set<string>,
        idOf: string -> string, s: Snapshot, env: SaveEnv)
    requires Orderly(rooms, idOf) && SnapshotOf(rooms, final, stored, idOf, s, env)
    requires forall m | In(rooms, m) :: HasId(final, m.id)
    ensures Storable(s, env)
  {
    hide TrimSpace, RoomIdOf, DistinctRoomIds, HasId;
    forall p | p in Places(s) ensures Filled(s, env, p.0, p.1).roomId == RoomIdOf(s, env, p.0) {
      assert Has(rooms, p.0, p.1);
      assert p.0 in AllRooms(s);
    }
    forall p, q | p in Places(s) && q in Places(s) && Filled(s, env, p.0, p.1).id == Filled(s, env, q.0, q.1).id
      ensures p == q
    {
      assert Has(rooms, p.0, p.1) && Has(rooms, q.0, q.1);
      assert In(rooms, rooms[p.0][p.1]) && In(rooms, rooms[q.0][q.1]);
    }
  }

  /** A sound message of an earlier state that lives on in the last one. */
  ghost predicate Lasts(raw: Message, final: Lifecycle.Rooms) {
    Lifecycle.Sound(raw) && exists later :: In(final, later) && Lifecycle.Becomes(raw, later)
  }

  lemma {:induction false} SavedSettled(rooms: Lifecycle.Rooms, final: Lifecycle.Rooms, t: Tables,
        idOf: string -> string, step: Step, m: Message)
    requires Orderly(final, idOf) && RepliesAgree(final, t) && m in Written(step)
    requires forall raw | In(rooms, raw) :: Lasts(raw, final)
    requires match step
             case FullStep(s, env, _) => SnapshotOf(rooms, final, t.messages.Keys, idOf, s, env)
             case InsertStep(n, _, _) => In(rooms, n)
    ensures Settled(m.voteTotal, m.userVotes, m.currentVersion) && m.replyTo == ReplyIn(t, final)(m.id)
  {
    hide Orderly, RepliesAgree, ReplyIn, RoomIdOf, Blank, DistinctRoomIds, Lasts;
    match step
    case FullStep(s, env, names) =>
      var room, i :| room in s.messages && room != "" && 0 <= i < |s.messages[room]| && m == Filled(s, env, room, i);
      var raw := s.messages[room][i];
      assert Has(rooms, room, i);
      RawSettled(final, t, idOf, raw);
      if Blank(raw.id) { NewIdNoReply(t, final, m.id); }
    case InsertStep(n, _, _) => RawSettled(final, t, idOf, n);
  }

  lemma {:induction false} RawSettled(final: Lifecycle.Rooms, t: Tables, idOf: string -> string, raw: Message)
    requires Orderly(final, idOf) && RepliesAgree(final, t) && Lasts(raw, final)
    ensures Settled(raw.voteTotal, raw.userVotes, raw.currentVersion)
    ensures raw.replyTo == ReplyIn(t, final)(raw.id) && (Blank(raw.id) ==> raw.replyTo.None?)
  {
    hide Orderly, RepliesAgree, ReplyIn, Blank, In, Lifecycle.Sound, Lifecycle.Becomes;
    var later :| In(final, later) && Lifecycle.Becomes(raw, later);
    SoundSettled(raw);
    SameAddress(raw, later);
    ReplyById(final, idOf, t, later);
  }

  lemma {:induction false} SoundSettled(m: Message)
    requires Lifecycle.Sound(m)
    ensures Settled(m.voteTotal, m.userVotes, m.currentVersion)
  {
    hide Lifecycle.Ballots, Lifecycle.Tally, Lifecycle.VersionsNumbered;
  }

  lemma {:induction false} SameAddress(m: Message, n: Message)
    requires Lifecycle.Becomes(m, n)
    ensures n.id == m.id && n.replyTo == m.replyTo
  {
    hide Lifecycle.VersionsExtend;
  }

  lemma NewIdNoReply(t: Tables, rooms: Lifecycle.Rooms, id: string)
    requires !HasId(rooms, id) && id !in t.messages
    ensures ReplyIn(t, rooms)(id) == None
  {
  }

  /** The rows of a sane database are settled. */
  lemma {:induction false} SaneSettled(t: Tables, idOf: string -> string, final: Lifecycle.Rooms)
    requires Sane(t, idOf)
    ensures SettledTable(t, ReplyIn(t, final))
  {
    hide Tidy, RoomMessages, Username, Blank, UniqueRoomKeys, HistoryLive;
    var loaded := MessagesByRoom(t);
    forall id | id in t.messages ensures SettledRow(t.messages[id]) {
      var room := t.rooms[t.messages[id].roomId].roomKey;
      RowLoaded(t, id);
      var i :| 0 <= i < |loaded[room]| && loaded[room][i] == LoadedMessage(t, id);
      Lifecycle.SoundAt(loaded, room, i);
    }
  }

  /** What comes back from the database can be worked on again. */
  lemma RestoredSound(m: Message, username: string)
    requires Lifecycle.Sound(m)
    ensures Lifecycle.Sound(Restored(m, username))
  {
    hide Lifecycle.Tally;
  }

  lemma LoadedSound(s: Snapshot, env: SaveEnv, t: Tables)
    requires Consistent(t) && MessagesLoaded(s, env, Loaded(t)) && Lifecycle.AllSound(s.messages)
    ensures Lifecycle.AllSound(MessagesByRoom(t))
  {
    hide RoomMessages, RoomLoaded, Lifecycle.Sound;
    var l := Loaded(t);
    forall room, i | room in l.messages && 0 <= i < |l.messages[room]| ensures Lifecycle.Sound(l.messages[room][i]) {
      RoomSound(s, env, room, l, l.messages[room][i]);
    }
  }

  lemma RoomSound(s: Snapshot, env: SaveEnv, room: string, l: LoadedState, x: Message)
    requires Lifecycle.AllSound(s.messages) && RoomLoaded(s, env, room, l) && x in l.messages[room]
    ensures Lifecycle.Sound(x)
  {
    hide RoomIdOf, Lifecycle.Sound, Restored, OldestFirst, Filled;
    assert x in Elements(l.messages[room]);
    var m :| m in FiledUnder(s, env, room) && x == Restored(m, Lookup(l.users, m.userId, ""));
    var j :| 0 <= j < |s.messages[room]| && m == Filled(s, env, room, j);
    FilledSound(s, env, room, j);
    RestoredSound(m, Lookup(l.users, m.userId, ""));
  }

  lemma FilledSound(s: Snapshot, env: SaveEnv, room: string, i: int)
    requires room in s.messages && 0 <= i < |s.messages[room]| && Lifecycle.Sound(s.messages[room][i])
    ensures Lifecycle.Sound(Filled(s, env, room, i))
  {
    hide Lifecycle.Tally, RoomIdOf;
  }

  /** After a save the database is as sane as before. */
  lemma {:induction false} SavedSane(prior: Tables, s: Snapshot, env: SaveEnv, names: seq<string>, t: Tables,
        idOf: string -> string, final: Lifecycle.Rooms, stored: set<string>)
    requires Storable(s, env) && Saved(prior, s, env, names, t) && Consistent(t) && Tidy(t)
    requires SnapshotOf(s.messages, final, stored, idOf, s, env) && Lifecycle.AllSound(MessagesByRoom(t))
    ensures Sane(t, idOf)
  {
    hide Storable, Consistent, Tidy, RoomIdOf, Blank, HasId, DistinctRoomIds, Lifecycle.AllSound, MessagesSaved;
    SavedRoomKeys(s, env, names, t);
    forall id | id in t.messages ensures !Blank(id) {
      SavedIds(prior, s, env, names, t, id);
      var room, i :| room in s.messages && 0 <= i < |s.messages[room]| && Filled(s, env, room, i).id == id;
      assert Has(s.messages, room, i);
    }
  }

  lemma {:induction false} SavedRoomKeys(s: Snapshot, env: SaveEnv, names: seq<string>, t: Tables)
    requires DistinctRoomIds(s, env) && RoomEnumeration(s, names)
    requires t.rooms == UpsertRooms(map[], RoomEntries(s, env, names))
    ensures forall id | id in t.rooms ::
        t.rooms[id].roomKey in AllRooms(s) && RoomIdOf(s, env, t.rooms[id].roomKey) == id
  {
    hide RoomIdOf, UpsertRooms, AllRooms, DistinctRoomIds;
    RoomsStoredAll(s, env, names, t.rooms);
    forall id | id in t.rooms
      ensures t.rooms[id].roomKey in AllRooms(s) && RoomIdOf(s, env, t.rooms[id].roomKey) == id
    {
      var k :| 0 <= k < |names| && id == RoomIdOf(s, env, names[k]);
      assert names[k] in Elements(names);
    }
  }

  lemma {:induction false} SavedIds(prior: Tables, s: Snapshot, env: SaveEnv, names: seq<string>, t: Tables, id: string)
    requires Saved(prior, s, env, names, t) && id in t.messages
    ensures exists room, i :: room in s.messages && 0 <= i < |s.messages[room]| && Filled(s, env, room, i).id == id
  {
    hide Filled, RoomEntries, UpsertRooms, RoomEnumeration, UsersSaved;
    var m :| m in Contents(s, env) && m.id == id;
  }

  /** A SERVER AND ITS DATABASE. A server that starts on the messages its database holds, or clears them,
      works on them in any way that brings in new IDs only, and saves them in between, fully or one by
      one: after every full save a restart would load exactly the rooms, the room directory and the
      messages that were saved, and could go on from there. */
  lemma {:induction false} ServerSavesRoundTrip(ts: seq<Tables>, steps: seq<Step>, start: Lifecycle.Rooms,
        events: seq<Lifecycle.Event>, at: seq<nat>, idOf: string -> string, i: nat)
    requires StoreRuns.Run(ts, steps) && Sane(ts[0], idOf) && StartsOn(start, ts[0])
    requires BringNew(start, ts[0].messages.Keys, idOf, events)
    requires SavesOf(start, events, ts[0].messages.Keys, idOf, steps, at)
    requires i < |steps| && steps[i].FullStep?
    ensures var s, env, names, t := steps[i].s, steps[i].env, steps[i].names, ts[i + 1];
      && Sane(t, idOf) && s.messages == Lifecycle.Run(start, events[..at[i]])
      && RoomsLoaded(s, env, names, Loaded(t)) && MessagesLoaded(s, env, Loaded(t))
  {
    var stored := ts[0].messages.Keys;
    hide *;
    StartSound(start, ts[0], idOf);
    RunOrderly(start, stored, idOf, events);
    RunAgrees(start, ts[0], idOf, events);
    var final := Lifecycle.Run(start, events);
    SaneSettled(ts[0], idOf, final);
    forall k | 0 <= k < |steps|
      ensures SettledMessages(Written(steps[k]), ReplyIn(ts[0], final))
      ensures steps[k].FullStep? ==> Storable(steps[k].s, steps[k].env)
    {
      MomentSaved(ts[0], start, events, idOf, steps, at, k);
    }
    FullStepsStorable(steps);
    RunsRoundTrip(ts, steps, ReplyIn(ts[0], final), i);
    RestartSane(ts, steps, start, events, at, idOf, i);
  }

  lemma FullStepsStorable(steps: seq<Step>)
    requires forall k | 0 <= k < |steps| && steps[k].FullStep? :: Storable(steps[k].s, steps[k].env)
    ensures AllStorable(steps)
  {
  }

  /** What one save writes is settled and storable. */
  lemma {:induction false} MomentSaved(t: Tables, start: Lifecycle.Rooms, events: seq<Lifecycle.Event>,
        idOf: string -> string, steps: seq<Step>, at: seq<nat>, k: nat)
    requires Lifecycle.AllSound(start) && Orderly(start, idOf) && BringNew(start, t.messages.Keys, idOf, events)
    requires Orderly(Lifecycle.Run(start, events), idOf) && RepliesAgree(Lifecycle.Run(start, events), t)
    requires SavesOf(start, events, t.messages.Keys, idOf, steps, at) && k < |steps|
    ensures SettledMessages(Written(steps[k]), ReplyIn(t, Lifecycle.Run(start, events)))
    ensures steps[k].FullStep? ==> Storable(steps[k].s, steps[k].env)
  {
    var rooms, final := Lifecycle.Run(start, events[..at[k]]), Lifecycle.Run(start, events);
    hide Lifecycle.Run, Orderly, RepliesAgree, BringNew, Storable, Lifecycle.AllSound, Lifecycle.Sound, SnapshotOf, In;
    hide ReplyIn, Lifecycle.VersionsExtend;
    BringNewBefore(start, t.messages.Keys, idOf, events, at[k]);
    RunOrderly(start, t.messages.Keys, idOf, events[..at[k]]);
    forall raw | In(rooms, raw)
      ensures Lasts(raw, final) && HasId(final, raw.id)
    {
      var later := LivesOn(start, events, at[k], raw);
    }
    if steps[k].FullStep? {
      OrderlyStorable(rooms, final, t.messages.Keys, idOf, steps[k].s, steps[k].env);
    }
    forall m | m in Written(steps[k])
      ensures Settled(m.voteTotal, m.userVotes, m.currentVersion) && m.replyTo == ReplyIn(t, final)(m.id)
    {
      SavedSettled(rooms, final, t, idOf, steps[k], m);
    }
  }

  lemma {:induction false} RestartSane(ts: seq<Tables>, steps: seq<Step>, start: Lifecycle.Rooms,
        events: seq<Lifecycle.Event>, at: seq<nat>, idOf: string -> string, i: nat)
    requires StoreRuns.Run(ts, steps) && Lifecycle.AllSound(start)
    requires SavesOf(start, events, ts[0].messages.Keys, idOf, steps, at) && i < |steps| && steps[i].FullStep?
    requires var s, env, t := steps[i].s, steps[i].env, ts[i + 1];
      Storable(s, env) && Consistent(t) && Tidy(t) && MessagesLoaded(s, env, Loaded(t))
    ensures Sane(ts[i + 1], idOf) && steps[i].s.messages == Lifecycle.Run(start, events[..at[i]])
  {
    var s, env, t := steps[i].s, steps[i].env, ts[i + 1];
    hide Storable, Consistent, Tidy, MessagesLoaded, Loaded, Lifecycle.AllSound, Lifecycle.Run, Saved, MessagesByRoom;
    assert Steps(ts[i], steps[i], t);
    Lifecycle.RunKeeps(start, events[..at[i]], 0);
    assert s.messages == Lifecycle.Run(start, events[..at[i]]);
    LoadedSound(s, env, t);
    SavedSane(ts[i], s, env, steps[i].names, t, idOf, Lifecycle.Run(start, events), ts[0].messages.Keys);
  }

  // ---- reading the history ----

  /** Paging through a room from the start reads the messages that the join-time filter lets the user
      see, each once and oldest first: without a join marker, all that the user may see from the time of
      joining on. */
  ghost predicate PagesCompletely(ms: seq<Message>, userId: string, joinedAt: int, limit: int) {
    var visible := Pagination.ForJoinTime(ms, userId, joinedAt);
    && Pagination.Positive(visible)
    && Pagination.Backwards(Pagination.Session(visible, Pagination.WindowLimit(limit), Pagination.START)) == visible
    && (forall m | m in visible :: m in ms && Pagination.MaySee(m, userId))
    && ((forall m | m in ms && Pagination.MaySee(m, userId) :: !Pagination.JoinMarker(m, userId)) ==>
          forall m :: m in visible <==> m in ms && Pagination.MaySee(m, userId) && 0 < joinedAt <= m.timestamp)
  }

  lemma {:induction false} LoadedRoomPages(s: Snapshot, env: SaveEnv, l: LoadedState, name: string, userId: string,
        joinedAt: int, limit: int)
    requires RoomLoaded(s, env, name, l) && forall m | m in FiledUnder(s, env, name) :: m.timestamp > 0
    ensures PagesCompletely(l.messages[name], userId, joinedAt, limit)
  {
    hide FiledUnder, OldestFirst;
    hide Pagination.ForJoinTime, Pagination.Session, Pagination.Backwards, Pagination.MaySee, Pagination.JoinMarker;
    var ms := l.messages[name];
    forall m | m in ms ensures m.timestamp > 0 {
      assert m in Elements(ms);
      var n :| n in FiledUnder(s, env, name) && m == Restored(n, Lookup(l.users, n.userId, ""));
    }
    Pagination.PagesCoverHistory(ms, userId, joinedAt, limit);
    forall m { Pagination.ForJoinTimeShows(ms, userId, joinedAt, m); }
  }

  /** A SERVER, ITS DATABASE AND A READER. After every full save of a server's run, a restart gives each
      room exactly the messages saved, and reading it page by page is complete. */
  lemma {:induction false} SavedRoomsPageCompletely(ts: seq<Tables>, steps: seq<Step>, start: Lifecycle.Rooms,
        events: seq<Lifecycle.Event>, at: seq<nat>, idOf: string -> string, i: nat, name: string, userId: string,
        joinedAt: int, limit: int)
    requires StoreRuns.Run(ts, steps) && Sane(ts[0], idOf) && StartsOn(start, ts[0])
    requires BringNew(start, ts[0].messages.Keys, idOf, events)
    requires SavesOf(start, events, ts[0].messages.Keys, idOf, steps, at)
    requires i < |steps| && steps[i].FullStep? && name in AllRooms(steps[i].s)
    requires forall m | m in FiledUnder(steps[i].s, steps[i].env, name) :: m.timestamp > 0
    ensures Consistent(ts[i + 1]) && RoomLoaded(steps[i].s, steps[i].env, name, Loaded(ts[i + 1]))
    ensures PagesCompletely(Loaded(ts[i + 1]).messages[name], userId, joinedAt, limit)
  {
    ServerSavesRoundTrip(ts, steps, start, events, at, idOf, i);
    hide FiledUnder, AllRooms, Consistent, Loaded, RoomLoaded, RoomsLoaded, SavesOf, BringNew, StartsOn, StoreRuns.Run;
    hide PagesCompletely;
    LoadedRoomPages(steps[i].s, steps[i].env, Loaded(ts[i + 1]), name, userId, joinedAt, limit);
  }
}
