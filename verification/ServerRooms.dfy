/** The server's room state (server-go/internal/server: server.go, socket_handlers.go,
    socket_handlers_rooms.go, socket_handlers_identity.go). Each method is one critical section under
    `cs.mu`. Fresh UUIDs, the clock and `strings.ToLower` are parameters. */
module ServerRooms {
  import opened ChatTypes
  import opened Text
  import opened Sorting

  // ---- direct-message rooms ----

  datatype Pair = Pair(first: string, second: string)

  /** Index of the first bar, or the length. */
  function Bar(s: string): (i: nat)
    ensures i <= |s| && (forall j | 0 <= j < i :: s[j] != '|') && (i < |s| ==> s[i] == '|')
  {
    if s == "" || s[0] == '|' then 0 else 1 + Bar(s[1..])
  }

  /** `parseDMParticipants` */
  function ParseDMParticipants(room: string): Option<Pair> {
    if !HasPrefix(room, DM_PREFIX) then None else
      var rest := room[|DM_PREFIX|..];
      if TrimSpace(rest) == "" || Bar(rest) == |rest| then None else
        var first, second := TrimSpace(rest[..Bar(rest)]), TrimSpace(rest[Bar(rest) + 1..]);
        if first == "" || second == "" then None else Some(Pair(first, second))
  }

  /** The participants in the order the room name lists them. */
  function Ordered(lower: string -> string, a: string, b: string): Pair {
    var first, second := TrimSpace(a), TrimSpace(b);
    if Less(lower(second), lower(first)) then Pair(second, first) else Pair(first, second)
  }

  function DMRoomName(p: Pair): string {
    DM_PREFIX + p.first + "|" + p.second
  }

  /** `buildCanonicalDMRoom` */
  function BuildCanonicalDMRoom(lower: string -> string, a: string, b: string): string {
    DMRoomName(Ordered(lower, a, b))
  }

  lemma ShorterTrim(s: string)
    ensures |TrimSpace(s)| <= |s| && forall c | c in TrimSpace(s) :: c in s
  {
    TrimLeftResult(s, IsSpace);
    var t := TrimLeft(s, IsSpace);
    TrimRightResult(t, IsSpace);
    assert forall c | c in t :: c in s[|s| - |t|..];
    assert forall c | c in TrimSpace(s) :: c in t[..|TrimSpace(s)|];
  }

  lemma {:induction false} BarAt(x: string, y: string)
    ensures var i := Bar(x + ['|'] + y); i <= |x| && (i == |x| <==> '|' !in x)
  {
    var s := x + ['|'] + y;
    var i := Bar(s);
    SeparatorAt(x, y, '|');
    assert s[|x|] == '|';
    assert forall j | 0 <= j < |x| :: s[j] == x[j];
  }

  lemma VisibleStart(s: string)
    requires s != "" && !IsSpace(s[0])
    ensures TrimSpace(s) != ""
  {
    TrimRightResult(s, IsSpace);
  }

  /** A room name reads back as its participants if and only if the first has no bar. */
  lemma ParsesBackExactly(p: Pair)
    requires p.first != "" && p.second != "" && Trimmed(p.first, IsSpace) && Trimmed(p.second, IsSpace)
    ensures ParseDMParticipants(DMRoomName(p)) == Some(p) <==> '|' !in p.first
  {
    hide Trim, IsSpace, Bar;
    var rest := p.first + ['|'] + p.second;
    assert DMRoomName(p)[|DM_PREFIX|..] == rest && DMRoomName(p)[..|DM_PREFIX|] == DM_PREFIX;
    assert rest[0] == p.first[0];
    TrimResult(p.first, IsSpace);
    TrimResult(p.second, IsSpace);
    VisibleStart(rest);
    BarAt(p.first, p.second);
    SeparatorAt(p.first, p.second, '|');
    ShorterTrim(rest[..Bar(rest)]);
  }

  /** Lower-casing maps characters one by one. */
  ghost predicate ByCharacter(lower: string -> string) {
    forall s :: |lower(s)| == |s|
  }

  /** Both participants get the same room if and only if their IDs are equal or differ when lower-cased. */
  lemma {:induction false} OrderIndependentExactly(lower: string -> string, a: string, b: string)
    requires ByCharacter(lower)
    ensures BuildCanonicalDMRoom(lower, a, b) == BuildCanonicalDMRoom(lower, b, a)
            <==> TrimSpace(a) == TrimSpace(b) || lower(TrimSpace(a)) != lower(TrimSpace(b))
  {
    var x, y := TrimSpace(a), TrimSpace(b);
    LessTotal(lower(x), lower(y));
    LessIrreflexive(lower(x));
    if Less(lower(x), lower(y)) && Less(lower(y), lower(x)) {
      LessTransitive(lower(x), lower(y), lower(x));
    }
    hide TrimSpace;
    if lower(x) == lower(y) {
      var u, v := DM_PREFIX + x + "|" + y, DM_PREFIX + y + "|" + x;
      assert |x| == |lower(x)| == |y|;
      assert u[|DM_PREFIX|..|DM_PREFIX| + |x|] == x && v[|DM_PREFIX|..|DM_PREFIX| + |x|] == y;
    }
  }

  /** The name of a direct-message room is canonical: building it again from what it reads as gives
      the same name. */
  lemma CanonicalStable(lower: string -> string, a: string, b: string)
    requires TrimSpace(a) != "" && TrimSpace(b) != "" && '|' !in a && '|' !in b
    ensures var p := Ordered(lower, a, b);
      ParseDMParticipants(BuildCanonicalDMRoom(lower, a, b)) == Some(p)
      && BuildCanonicalDMRoom(lower, p.first, p.second) == BuildCanonicalDMRoom(lower, a, b)
  {
    var p := Ordered(lower, a, b);
    TrimTwice(a);
    TrimTwice(b);
    TrimResult(a, IsSpace);
    TrimResult(b, IsSpace);
    ShorterTrim(a);
    ShorterTrim(b);
    ParsesBackExactly(p);
    LessIrreflexive(lower(p.first));
    if Less(lower(p.first), lower(p.second)) && Less(lower(p.second), lower(p.first)) {
      LessTransitive(lower(p.first), lower(p.second), lower(p.first));
    }
  }

  // ---- state ----

  datatype Rooms = Rooms(
    names: seq<string>,
    roomIds: map<string, string>,
    roomsById: map<string, string>,
    nameHashes: map<string, string>,
    ciphertexts: map<string, string>,
    updatedAt: map<string, int>,
    messages: map<string, seq<Message>>,
    members: map<string, set<string>>)

  /** The two directions name each other; names and IDs are not empty, and a direct-message room is
      its own ID. */
  ghost predicate Paired(ids: map<string, string>, rooms: map<string, string>) {
    && (forall room | room in ids :: ids[room] in rooms && rooms[ids[room]] == room && room != "" && ids[room] != "")
    && (forall id | id in rooms :: rooms[id] in ids && ids[rooms[id]] == id)
    && (forall room | room in ids && HasPrefix(room, DM_PREFIX) :: ids[room] == room)
    && (forall id | id in rooms && HasPrefix(id, DM_PREFIX) :: rooms[id] == id)
  }

  ghost predicate HashesResolve(s: Rooms) {
    forall h | h in s.nameHashes :: s.nameHashes[h] in s.roomsById
  }

  ghost predicate Listed(s: Rooms) {
    Distinct(s.names) && forall room | room in s.names :: room in s.roomIds
  }

  ghost predicate Consistent(s: Rooms) {
    Paired(s.roomIds, s.roomsById) && HashesResolve(s) && Listed(s)
  }

  /** A new UUID: printable, not a direct-message name, and never seen as a room, an ID or in a directory. */
  ghost predicate Fresh(s: Rooms, uuid: string) {
    && uuid != "" && TrimSpace(uuid) == uuid && !HasPrefix(uuid, DM_PREFIX)
    && uuid !in s.roomIds && uuid !in s.roomsById && uuid !in s.updatedAt
  }

  // ---- transitions ----

  /** `ensureRoomIDLocked`: the room's ID, and the state that records it. */
  function EnsuredId(s: Rooms, room: string, uuid: string): string {
    var name := TrimSpace(room);
    if name == "" then "" else if HasPrefix(name, DM_PREFIX) then name
    else if Lookup(s.roomIds, name, "") != "" then s.roomIds[name] else uuid
  }

  function Ensured(s: Rooms, room: string, uuid: string): Rooms {
    var name, id := TrimSpace(room), EnsuredId(s, room, uuid);
    if name == "" then s else s.(roomIds := s.roomIds[name := id], roomsById := s.roomsById[id := name])
  }

  function Stamp(stamp: int, now: int): int {
    if stamp > 0 then stamp else now
  }

  /** `handleNewRoom` with a hash that is already known: the room keeps a ciphertext it has. */
  function Reopened(s: Rooms, hash: string, ciphertext: string, stamp: int): Rooms
    requires hash in s.nameHashes
  {
    var id := s.nameHashes[hash];
    var existing := Lookup(s.updatedAt, id, 0);
    if Lookup(s.ciphertexts, id, "") == "" && (existing == 0 || stamp >= existing)
    then s.(ciphertexts := s.ciphertexts[id := ciphertext], updatedAt := s.updatedAt[id := stamp])
    else s
  }

  /** `handleNewRoom` with a new hash: the UUID is both the room's name and its ID. */
  function Created(s: Rooms, hash: string, ciphertext: string, stamp: int, uuid: string): Rooms {
    s.(names := s.names + [uuid],
       roomIds := s.roomIds[uuid := uuid],
       roomsById := s.roomsById[uuid := uuid],
       ciphertexts := s.ciphertexts[uuid := ciphertext],
       updatedAt := s.updatedAt[uuid := stamp],
       nameHashes := s.nameHashes[hash := uuid],
       messages := s.messages[uuid := []],
       members := if uuid in s.members then s.members else s.members[uuid := {}])
  }

  function Opened(s: Rooms, hash: string, ciphertext: string, stamp: int, uuid: string): Rooms {
    if hash in s.nameHashes then Reopened(s, hash, ciphertext, stamp) else Created(s, hash, ciphertext, stamp, uuid)
  }

  // ---- the direct-message intro ----

  /** `requestingUserID` in `buildDMIntroMessage`. */
  function Requester(user: string): string {
    if '-' in user then user else TrimSpace(user)
  }

  function OtherParticipant(p: Pair, user: string): string {
    if Requester(user) == p.first then p.second else p.first
  }

  function IntroMessages(room: string, roomId: string, user: string, id: string, now: int): seq<Message> {
    var p := ParseDMParticipants(room);
    if p.None? then [] else
      [Message(id, now, "system", SYSTEM_USER_ID, roomId,
               "You are at the beginning of an awesome conversation with "
               + if OtherParticipant(p.value, user) == "" then ""
                   else "userId:" + TrimSpace(OtherParticipant(p.value, user)),
               "", "", "", None, None, None, None, None, None, None, false, false)]
  }

  /** The room exists under its own name, with a message list and both participants as members. */
  function WithDMRoom(s: Rooms, room: string, p: Pair, intro: seq<Message>): Rooms {
    s.(roomIds := s.roomIds[room := room], roomsById := s.roomsById[room := room],
       messages := if room in s.messages then s.messages else s.messages[room := intro],
       names := if room in s.names then s.names else s.names + [room],
       members := s.members[room := Lookup(s.members, room, {}) + {p.first, p.second}])
  }

  /** `ensureCanonicalDMRoomLocked` for a participant. */
  function DMEnsured(s: Rooms, lower: string -> string, p: Pair, user: string, introId: string, now: int): Rooms {
    var room := BuildCanonicalDMRoom(lower, p.first, p.second);
    WithDMRoom(s, room, p, IntroMessages(room, room, user, introId, now))
  }

  // ---- directory refresh ----

  function Incoming(stamps: map<string, int>, clock: string -> int, id: string): int {
    Stamp(Lookup(stamps, id, 0), clock(id))
  }

  /** The test an entry of `handleIdentityDirectoryRefresh` has to pass. */
  predicate Accepts(s: Rooms, ciphers: map<string, string>, stamps: map<string, int>, clock: string -> int,
        id: string) {
    && id in ciphers && id != "" && ciphers[id] != "" && id in s.roomsById
    && !(Lookup(s.updatedAt, id, 0) > 0 && Incoming(stamps, clock, id) < Lookup(s.updatedAt, id, 0))
  }

  function AcceptedCiphers(s: Rooms, ciphers: map<string, string>, stamps: map<string, int>,
        clock: string -> int): map<string, string> {
    map id | id in ciphers && Accepts(s, ciphers, stamps, clock, id) :: ciphers[id]
  }

  function AcceptedStamps(s: Rooms, ciphers: map<string, string>, stamps: map<string, int>,
        clock: string -> int): map<string, int> {
    map id | id in ciphers && Accepts(s, ciphers, stamps, clock, id) :: Incoming(stamps, clock, id)
  }

  function Refreshed(s: Rooms, ciphers: map<string, string>, stamps: map<string, int>, clock: string -> int): Rooms {
    s.(ciphertexts := s.ciphertexts + AcceptedCiphers(s, ciphers, stamps, clock),
       updatedAt := s.updatedAt + AcceptedStamps(s, ciphers, stamps, clock))
  }

  // ---- what every step keeps ----

  ghost predicate Grows(m: map<string, string>, n: map<string, string>) {
    forall k | k in m :: k in n && n[k] == m[k]
  }

  ghost predicate Later(m: map<string, int>, n: map<string, int>) {
    forall id :: Lookup(m, id, 0) <= Lookup(n, id, 0)
  }

  /** Assignments, once made, stay: room to ID, ID to room, hash to room; and directory timestamps
      never go back. */
  ghost predicate Extends(s: Rooms, t: Rooms) {
    && Grows(s.roomIds, t.roomIds) && Grows(s.roomsById, t.roomsById) && Grows(s.nameHashes, t.nameHashes)
    && (forall room | room in s.names :: room in t.names)
    && Later(s.updatedAt, t.updatedAt)
  }

  lemma PairAdded(ids: map<string, string>, rooms: map<string, string>, room: string, id: string)
    requires Paired(ids, rooms) && room != "" && id != ""
    requires HasPrefix(room, DM_PREFIX) || HasPrefix(id, DM_PREFIX) ==> id == room
    requires (room in ids && ids[room] == id) || (room !in ids && id !in rooms)
    ensures Paired(ids[room := id], rooms[id := room]) && Grows(ids, ids[room := id]) && Grows(rooms, rooms[id := room])
  {
    hide HasPrefix;
  }

  lemma PairsReplaced(s: Rooms, ids: map<string, string>, rooms: map<string, string>)
    requires Consistent(s) && Paired(ids, rooms) && Grows(s.roomIds, ids) && Grows(s.roomsById, rooms)
    ensures var t := s.(roomIds := ids, roomsById := rooms); Consistent(t) && Extends(s, t)
  {
    hide Paired, Distinct;
  }

  lemma EnsuredKeeps(s: Rooms, room: string, uuid: string)
    requires Consistent(s)
    requires HasPrefix(TrimSpace(room), DM_PREFIX) || TrimSpace(room) in s.roomIds || Fresh(s, uuid)
    ensures Consistent(Ensured(s, room, uuid)) && Extends(s, Ensured(s, room, uuid))
  {
    hide Trim, Extends, Distinct;
    var name, id := TrimSpace(room), EnsuredId(s, room, uuid);
    if name != "" {
      assert HasPrefix(name, DM_PREFIX) && name in s.roomsById ==> s.roomsById[name] == name;
      hide TrimSpace, HasPrefix;
      PairAdded(s.roomIds, s.roomsById, name, id);
      PairsReplaced(s, s.roomIds[name := id], s.roomsById[id := name]);
    } else {
      ExtendsItself(s);
    }
  }

  /** A room with an ID is left alone. */
  lemma {:induction false} EnsuredKnown(s: Rooms, room: string, uuid: string)
    requires Consistent(s) && TrimSpace(room) in s.roomIds
    ensures Ensured(s, room, uuid) == s && EnsuredId(s, room, uuid) == s.roomIds[TrimSpace(room)]
  {
    hide Distinct;
    var name := TrimSpace(room);
    hide TrimSpace;
    assert s.roomIds[name := s.roomIds[name]] == s.roomIds;
    assert s.roomsById[s.roomIds[name] := name] == s.roomsById;
  }

  /** The ID handed out is the one recorded, in both directions. */
  lemma EnsuredResolves(s: Rooms, room: string, uuid: string)
    requires TrimSpace(room) != ""
    ensures var t, name, id := Ensured(s, room, uuid), TrimSpace(room), EnsuredId(s, room, uuid);
      name in t.roomIds && t.roomIds[name] == id && id in t.roomsById && t.roomsById[id] == name
  {
  }

  /** Asking for a room's ID again, with whatever UUID, gives the same ID and changes nothing. */
  lemma {:induction false} EnsuredTwice(s: Rooms, room: string, uuid: string, uuid': string)
    requires Consistent(s)
    requires HasPrefix(TrimSpace(room), DM_PREFIX) || TrimSpace(room) in s.roomIds || Fresh(s, uuid)
    ensures var t := Ensured(s, room, uuid);
      Ensured(t, room, uuid') == t && EnsuredId(t, room, uuid') == EnsuredId(s, room, uuid)
  {
    EnsuredKeeps(s, room, uuid);
    if TrimSpace(room) != "" {
      EnsuredResolves(s, room, uuid);
      hide Consistent, TrimSpace, Ensured, EnsuredId;
      EnsuredKnown(Ensured(s, room, uuid), room, uuid');
    }
  }

  lemma CreatedKeeps(s: Rooms, hash: string, ciphertext: string, stamp: int, uuid: string)
    requires Consistent(s) && Fresh(s, uuid) && hash !in s.nameHashes && stamp > 0
    ensures Consistent(Created(s, hash, ciphertext, stamp, uuid)) &&
        Extends(s, Created(s, hash, ciphertext, stamp, uuid))
  {
    hide TrimSpace, HasPrefix, Paired, Distinct;
    PairAdded(s.roomIds, s.roomsById, uuid, uuid);
    PairsReplaced(s, s.roomIds[uuid := uuid], s.roomsById[uuid := uuid]);
    AppendDistinct(s.names, uuid);
    hide Fresh;
  }

  lemma ReopenedKeeps(s: Rooms, hash: string, ciphertext: string, stamp: int)
    requires Consistent(s) && hash in s.nameHashes && stamp > 0
    ensures Consistent(Reopened(s, hash, ciphertext, stamp)) && Extends(s, Reopened(s, hash, ciphertext, stamp))
  {
    hide Paired, Distinct;
  }

  /** The room of a known hash is recorded in both directions already. */
  lemma {:induction false} HashedRoom(s: Rooms, hash: string)
    requires Consistent(s) && hash in s.nameHashes
    ensures var id := s.nameHashes[hash];
      && id in s.roomsById
      && s.roomIds[s.roomsById[id] := id] == s.roomIds && s.roomsById[id := s.roomsById[id]] == s.roomsById
  {
    hide Distinct, HasPrefix;
  }

  lemma RefreshedKeeps(s: Rooms, ciphers: map<string, string>, stamps: map<string, int>, clock: string -> int)
    requires Consistent(s) && forall id :: clock(id) > 0
    ensures Consistent(Refreshed(s, ciphers, stamps, clock)) && Extends(s, Refreshed(s, ciphers, stamps, clock))
  {
    hide Paired, Distinct, Incoming;
    StampsLater(s, ciphers, stamps, clock);
  }

  lemma StampsLater(s: Rooms, ciphers: map<string, string>, stamps: map<string, int>, clock: string -> int)
    requires forall id :: clock(id) > 0
    ensures Later(s.updatedAt, s.updatedAt + AcceptedStamps(s, ciphers, stamps, clock))
  {
    forall id ensures Incoming(stamps, clock, id) > 0 {
    }
  }

  lemma DMRoomTrimmed(lower: string -> string, a: string, b: string)
    requires TrimSpace(a) != "" && TrimSpace(b) != ""
    ensures var room := BuildCanonicalDMRoom(lower, a, b);
      TrimSpace(room) == room && room != "" && HasPrefix(room, DM_PREFIX)
  {
    TrimResult(a, IsSpace);
    TrimResult(b, IsSpace);
    var room := BuildCanonicalDMRoom(lower, a, b);
    var p := Ordered(lower, a, b);
    assert room[|room| - 1] == p.second[|p.second| - 1] && room[0] == '@' by { hide TrimSpace; }
    TrimResult(room, IsSpace);
    assert HasPrefix(room, DM_PREFIX) by { hide TrimSpace; }
    hide Trim, BuildCanonicalDMRoom, IsSpace, HasPrefix;
  }

  lemma DMEnsuredKeeps(s: Rooms, lower: string -> string, p: Pair, user: string, introId: string, now: int)
    requires Consistent(s) && TrimSpace(p.first) != "" && TrimSpace(p.second) != ""
    ensures Consistent(DMEnsured(s, lower, p, user, introId, now)) &&
        Extends(s, DMEnsured(s, lower, p, user, introId, now))
  {
    hide TrimSpace, BuildCanonicalDMRoom, IntroMessages, Paired, HasPrefix, Distinct;
    DMRoomTrimmed(lower, p.first, p.second);
    var room := BuildCanonicalDMRoom(lower, p.first, p.second);
    EnsuredKeeps(s, room, "");
    var t := Ensured(s, room, "");
    if room !in t.names { AppendDistinct(t.names, room); }
  }

  /** Asking for a direct-message room again, by the same name, changes nothing. */
  lemma DMEnsuredTwice(s: Rooms, lower: string -> string, p: Pair, user: string, introId: string, now: int,
                       user': string, introId': string, now': int)
    ensures var t := DMEnsured(s, lower, p, user, introId, now);
      DMEnsured(t, lower, p, user', introId', now') == t
  {
    hide BuildCanonicalDMRoom, IntroMessages;
    var room := BuildCanonicalDMRoom(lower, p.first, p.second);
    WithDMRoomTwice(s, room, p, IntroMessages(room, room, user, introId, now),
        IntroMessages(room, room, user', introId', now'));
  }

  lemma WithDMRoomTwice(s: Rooms, room: string, p: Pair, intro: seq<Message>, intro': seq<Message>)
    ensures var t := WithDMRoom(s, room, p, intro); WithDMRoom(t, room, p, intro') == t
  {
    var t := WithDMRoom(s, room, p, intro);
    assert t.members[room] + {p.first, p.second} == t.members[room];
    assert t.members[room := t.members[room]] == t.members;
    assert t.roomIds[room := room] == t.roomIds && t.roomsById[room := room] == t.roomsById;
  }

  /** Whoever of the two asks first, and in whatever order the pair is named, it is one room with one
      thread of messages and both as members, if and only if their IDs are equal or differ when
      lower-cased; otherwise the second request opens another room. */
  lemma {:induction false} DMEnsuredEitherOrder(s: Rooms, lower: string -> string, a: string, b: string, user: string,
        introId: string, now: int, user': string, introId': string, now': int)
    requires ByCharacter(lower) && TrimSpace(a) == a && TrimSpace(b) == b
    requires BuildCanonicalDMRoom(lower, b, a) !in s.roomIds
    ensures var t := DMEnsured(s, lower, Pair(a, b), user, introId, now);
      DMEnsured(t, lower, Pair(b, a), user', introId', now') == t <==> a == b || lower(a) != lower(b)
  {
    OrderIndependentExactly(lower, a, b);
    DMEnsuredTwice(s, lower, Pair(a, b), user, introId, now, user', introId', now');
    hide TrimSpace, BuildCanonicalDMRoom, IntroMessages;
    var t := DMEnsured(s, lower, Pair(a, b), user, introId, now);
    var room := BuildCanonicalDMRoom(lower, b, a);
    if a == b || lower(a) != lower(b) {
      assert {a, b} == {b, a};
      SameRoomEitherOrder(t, BuildCanonicalDMRoom(lower, a, b), a, b);
    } else {
      assert room !in t.roomIds;
      assert room in DMEnsured(t, lower, Pair(b, a), user', introId', now').roomIds;
    }
  }

  lemma SameRoomEitherOrder(t: Rooms, room: string, a: string, b: string)
    ensures forall intro :: WithDMRoom(t, room, Pair(b, a), intro) == WithDMRoom(t, room, Pair(a, b), intro)
  {
    assert {a, b} == {b, a};
  }

  // ---- the server ----

  class ChatRooms {
    var rooms: seq<string>
    var roomIds: map<string, string>
    var roomsById: map<string, string>
    var roomNameHashes: map<string, string>
    var roomNameCiphertexts: map<string, string>
    var roomDirectoryUpdatedAt: map<string, int>
    var messages: map<string, seq<Message>>
    var roomMembers: map<string, set<string>>

    function State(): Rooms
      reads this
    {
      Rooms(rooms, roomIds, roomsById, roomNameHashes, roomNameCiphertexts, roomDirectoryUpdatedAt, messages,
          roomMembers)
    }

    ghost predicate Valid()
      reads this
    {
      Consistent(State())
    }

    /** From what the database holds: no ID is empty or shared. A listed room without an ID, of which a
        new database has one, is given a UUID. */
    constructor (names: seq<string>, ids: map<string, string>, hashes: map<string, string>,
                 ciphertexts: map<string, string>, updatedAt: map<string, int>, threads: map<string, seq<Message>>,
                 uuids: seq<string>)
      requires Loadable(names, ids, uuids)
      requires forall h | h in hashes :: exists room :: room in ids && ids[room] == hashes[h]
      ensures Valid()
      ensures rooms == names && roomIds == WithIds(names, ids, uuids) && roomNameHashes == hashes
      ensures roomNameCiphertexts == ciphertexts && roomDirectoryUpdatedAt == updatedAt && messages == threads
      ensures roomMembers == Empty(IdsOf(names, roomIds))
    {
      assert |uuids| == |names| && "" !in uuids && forall room | room in ids :: ids[room] != "";
      hide Loadable, IdsOf, Consistent, WithIds, Empty;
      var allIds, membersById := IdentifyRooms(names, ids, uuids);
      WithIdsLoaded(names, ids, uuids);
      rooms, roomIds, roomNameHashes, roomNameCiphertexts := names, allIds, hashes, ciphertexts;
      roomDirectoryUpdatedAt, messages, roomMembers := updatedAt, threads, membersById;
      var byId := InvertIds(allIds);
      roomsById := byId;
      new;
      LoadedConsistent(State(), ids, uuids);
      EnsureListed();
    }

    /** Asks for the ID of every listed room. */
    method EnsureListed()
      requires Valid() && forall room | room in rooms :: TrimSpace(room) in roomIds
      modifies this`roomIds, this`roomsById
      ensures Valid() && State() == old(State())
    {
      hide TrimSpace, HasPrefix, Ensured, Consistent;
      for i := 0 to |rooms|
        invariant Valid() && State() == old(State())
      {
        assert rooms[i] in rooms;
        EnsuredKnown(State(), rooms[i], "");
        var _ := EnsureRoomId(rooms[i], "");
      }
    }

    method EnsureRoomId(room: string, uuid: string) returns (id: string)
      requires Valid()
      requires HasPrefix(TrimSpace(room), DM_PREFIX) || TrimSpace(room) in roomIds || Fresh(State(), uuid)
      modifies this`roomIds, this`roomsById
      ensures Valid() && State() == Ensured(old(State()), room, uuid) && Extends(old(State()), State())
      ensures id == EnsuredId(old(State()), room, uuid)
    {
      hide TrimSpace, Consistent, Extends, Fresh, HasPrefix;
      EnsuredKeeps(State(), room, uuid);
      var name := TrimSpace(room);
      if name == "" {
        id := "";
      } else if HasPrefix(name, DM_PREFIX) {
        id := name;
        roomIds := roomIds[name := name];
        roomsById := roomsById[name := name];
      } else if name in roomIds && roomIds[name] != "" {
        id := roomIds[name];
        assert roomIds == roomIds[name := id];
        roomsById := roomsById[id := name];
      } else {
        id := uuid;
        roomIds := roomIds[name := id];
        roomsById := roomsById[id := name];
      }
    }

    /** One hash names one room: the first request creates it, every later one finds it and changes
        neither the room nor its assignments. */
    method NewRoom(hash: string, ciphertext: string, stamp: int, now: int, uuid: string)
      returns (roomId: string, appliedCiphertext: string, appliedStamp: int, created: bool)
      requires Valid() && ciphertext != "" && now > 0 && Fresh(State(), uuid)
      modifies this
      ensures Valid() && State() == Opened(old(State()), hash, ciphertext, Stamp(stamp, now), uuid)
      ensures Extends(old(State()), State())
      ensures created <==> hash !in old(roomNameHashes)
      ensures hash in roomNameHashes && roomId == roomNameHashes[hash] && roomId in roomsById
      ensures !created ==> rooms == old(rooms) && roomIds == old(roomIds) && roomsById == old(roomsById)
      ensures !created ==> messages == old(messages)
      ensures appliedCiphertext == if created || Lookup(old(roomNameCiphertexts), roomId, "") == "" then ciphertext
                                   else old(roomNameCiphertexts)[roomId]
      ensures appliedStamp == Lookup(roomDirectoryUpdatedAt, roomId, 0)
    {
      hide Consistent, Extends, Fresh;
      var updatedAt := if stamp <= 0 then now else stamp;
      if hash in roomNameHashes {
        roomId, appliedCiphertext, appliedStamp := ReopenRoom(hash, ciphertext, updatedAt);
        created := false;
      } else {
        CreateRoom(hash, ciphertext, updatedAt, uuid);
        roomId, appliedCiphertext, appliedStamp, created := uuid, ciphertext, updatedAt, true;
      }
    }

    method ReopenRoom(hash: string, ciphertext: string, updatedAt: int)
      returns (roomId: string, appliedCiphertext: string, appliedStamp: int)
      requires Valid() && hash in roomNameHashes && ciphertext != "" && updatedAt > 0
      modifies this
      ensures Valid() && Extends(old(State()), State())
      ensures State() == Reopened(old(State()), hash, ciphertext, updatedAt)
      ensures roomId == roomNameHashes[hash] && roomId in roomsById
      ensures appliedCiphertext == if Lookup(old(roomNameCiphertexts), roomId, "") == "" then ciphertext
                                   else old(roomNameCiphertexts)[roomId]
      ensures appliedStamp == Lookup(roomDirectoryUpdatedAt, roomId, 0)
    {
      hide Consistent, Extends;
      ReopenedKeeps(State(), hash, ciphertext, updatedAt);
      HashedRoom(State(), hash);
      roomId := roomNameHashes[hash];
      var room := roomsById[roomId];
      appliedCiphertext, appliedStamp := ciphertext, 0;
      var existing := Lookup(roomDirectoryUpdatedAt, roomId, 0);
      if Lookup(roomNameCiphertexts, roomId, "") != "" {
        appliedCiphertext := roomNameCiphertexts[roomId];
        appliedStamp := existing;
      } else if existing == 0 || updatedAt >= existing {
        roomNameCiphertexts := roomNameCiphertexts[roomId := ciphertext];
        roomDirectoryUpdatedAt := roomDirectoryUpdatedAt[roomId := updatedAt];
        appliedStamp := updatedAt;
      } else {
        appliedStamp := existing;
      }
      if appliedStamp == 0 {
        appliedStamp := Lookup(roomDirectoryUpdatedAt, roomId, 0);
      }
      roomIds := roomIds[room := roomId];
      roomsById := roomsById[roomId := room];
    }

    method CreateRoom(hash: string, ciphertext: string, updatedAt: int, uuid: string)
      requires Valid() && hash !in roomNameHashes && updatedAt > 0 && Fresh(State(), uuid)
      modifies this
      ensures Valid() && Extends(old(State()), State())
      ensures State() == Created(old(State()), hash, ciphertext, updatedAt, uuid)
    {
      hide Extends, Fresh, Consistent;
      CreatedKeeps(State(), hash, ciphertext, updatedAt, uuid);
      rooms := rooms + [uuid];
      roomIds := roomIds[uuid := uuid];
      roomsById := roomsById[uuid := uuid];
      roomNameCiphertexts := roomNameCiphertexts[uuid := ciphertext];
      roomDirectoryUpdatedAt := roomDirectoryUpdatedAt[uuid := updatedAt];
      roomNameHashes := roomNameHashes[hash := uuid];
      messages := messages[uuid := []];
      if uuid !in roomMembers {
        roomMembers := roomMembers[uuid := {}];
      }
    }

    /** Opens the room of two participants for one of them; anyone else is refused and changes nothing. */
    method EnsureCanonicalDMRoom(lower: string -> string, room: string, user: string, introId: string, now: int)
      returns (dmRoom: string, roomId: string, created: bool)
      requires Valid()
      modifies this
      ensures Valid() && Extends(old(State()), State())
      ensures var p := ParseDMParticipants(room);
        if p.None? || (user != p.value.first && user != p.value.second)
        then State() == old(State()) && dmRoom == roomId == "" && !created
        else State() == DMEnsured(old(State()), lower, p.value, user, introId, now)
             && dmRoom == roomId == BuildCanonicalDMRoom(lower, p.value.first, p.value.second)
             && (created <==> dmRoom !in old(messages))
    {
      hide IntroMessages, Extends, Consistent;
      var parsed := ParseDMParticipants(room);
      if parsed.None? || (user != parsed.value.first && user != parsed.value.second) {
        ExtendsItself(State());
        return "", "", false;
      }
      var p := parsed.value;
      ParsedTrimmed(room);
      DMRoomTrimmed(lower, p.first, p.second);
      DMEnsuredKeeps(State(), lower, p, user, introId, now);
      hide TrimSpace, BuildCanonicalDMRoom, ParseDMParticipants;
      dmRoom := BuildCanonicalDMRoom(lower, p.first, p.second);
      roomId := EnsureRoomId(dmRoom, "");
      created := false;
      if dmRoom !in messages {
        created := true;
        messages := messages[dmRoom := IntroMessages(dmRoom, roomId, user, introId, now)];
      }
      if dmRoom !in rooms {
        rooms := rooms + [dmRoom];
      }
      roomMembers := roomMembers[roomId := Lookup(roomMembers, roomId, {}) + {p.first, p.second}];
    }

    /** `handleIdentityDirectoryRefresh` for rooms: an entry is accepted exactly if its room exists and
        its timestamp is not older than the stored one; what is accepted is stored and reported. */
    method RefreshRooms(ciphers: map<string, string>, stamps: map<string, int>, clock: string -> int)
      returns (acceptedCiphertexts: map<string, string>, acceptedUpdatedAt: map<string, int>)
      requires Valid() && forall id :: clock(id) > 0
      modifies this`roomNameCiphertexts, this`roomDirectoryUpdatedAt
      ensures Valid() && State() == Refreshed(old(State()), ciphers, stamps, clock) && Extends(old(State()), State())
      ensures acceptedCiphertexts == AcceptedCiphers(old(State()), ciphers, stamps, clock)
      ensures acceptedUpdatedAt == AcceptedStamps(old(State()), ciphers, stamps, clock)
    {
      hide Consistent, Extends;
      RefreshedKeeps(State(), ciphers, stamps, clock);
      acceptedCiphertexts, acceptedUpdatedAt := AcceptEntries(State(), ciphers, stamps, clock);
      roomNameCiphertexts := roomNameCiphertexts + acceptedCiphertexts;
      roomDirectoryUpdatedAt := roomDirectoryUpdatedAt + acceptedUpdatedAt;
    }
  }

  lemma ExtendsItself(s: Rooms)
    ensures Extends(s, s)
  {
  }

  lemma ParsedTrimmed(room: string)
    requires ParseDMParticipants(room).Some?
    ensures var p := ParseDMParticipants(room).value;
      TrimSpace(p.first) == p.first != "" && TrimSpace(p.second) == p.second != ""
  {
    var rest := room[|DM_PREFIX|..];
    TrimTwice(rest[..Bar(rest)]);
    TrimTwice(rest[Bar(rest) + 1..]);
    hide TrimSpace;
  }

  /** What a database and the UUIDs at hand satisfy. */
  ghost predicate Loadable(names: seq<string>, ids: map<string, string>, uuids: seq<string>) {
    && Distinct(names) && (forall room | room in names :: room != "" && TrimSpace(room) == room)
    && (forall room | room in ids :: room != "" && ids[room] != "")
    && (forall r, q | r in ids && q in ids && ids[r] == ids[q] :: r == q)
    && (forall room | room in names && HasPrefix(room, DM_PREFIX) :: room in ids)
    && (forall room | room in ids && (HasPrefix(room, DM_PREFIX) || HasPrefix(ids[room], DM_PREFIX)) ::
        ids[room] == room)
    && |uuids| == |names| && Distinct(uuids)
    && "" !in uuids && forall u | u in uuids :: !HasPrefix(u, DM_PREFIX) && u !in ids.Values
  }

  /** Every listed room has an ID: its own, or the UUID at its place. */
  function WithIds(names: seq<string>, ids: map<string, string>, uuids: seq<string>): map<string, string>
    requires |uuids| == |names|
  {
    if names == [] then ids else
      var n := |names| - 1;
      var rest := WithIds(names[..n], ids, uuids[..n]);
      if names[n] in rest then rest else rest[names[n] := uuids[n]]
  }

  /** The IDs are not shared, and those that the database did not hold are among the UUIDs. */
  ghost predicate Extended(names: seq<string>, ids: map<string, string>, uuids: seq<string>, all: map<string, string>) {
    && Grows(ids, all) && (forall room | room in names :: room in all)
    && (forall room | room in all ::
        room != "" && all[room] != "" && (room in ids || (room in names && all[room] in uuids)))
    && (forall p, q | p in all && q in all && all[p] == all[q] :: p == q)
    && forall room | room in all && (HasPrefix(room, DM_PREFIX) || HasPrefix(all[room], DM_PREFIX)) :: all[room] == room
  }

  lemma {:induction false} ExtendedNext(names: seq<string>, ids: map<string, string>, uuids: seq<string>,
      all: map<string, string>, room: string, uuid: string)
    requires Extended(names, ids, uuids, all) && room != "" && (room in all || !HasPrefix(room, DM_PREFIX))
    requires uuid != "" && !HasPrefix(uuid, DM_PREFIX) && uuid !in ids.Values && uuid !in uuids
    ensures Extended(names + [room], ids, uuids + [uuid], if room in all then all else all[room := uuid])
  {
    hide HasPrefix;
    forall r | r in all ensures all[r] != uuid {
      assert r in ids ==> all[r] == ids[r] && ids[r] in ids.Values;
    }
  }

  lemma {:induction false} WithIdsLoaded(names: seq<string>, ids: map<string, string>, uuids: seq<string>)
    requires Loadable(names, ids, uuids)
    ensures Extended(names, ids, uuids, WithIds(names, ids, uuids))
  {
    hide TrimSpace, HasPrefix;
    if names != [] {
      var n := |names| - 1;
      var rest, earlier := names[..n], uuids[..n];
      assert names == rest + [names[n]] && uuids == earlier + [uuids[n]];
      assert names[n] in names && uuids[n] in uuids && uuids[n] !in earlier;
      assert Loadable(rest, ids, earlier) by {
        assert forall room | room in rest :: room in names;
        assert forall u | u in earlier :: u in uuids;
      }
      WithIdsLoaded(rest, ids, earlier);
      assert names[n] in WithIds(rest, ids, earlier) || !HasPrefix(names[n], DM_PREFIX);
      hide Extended;
      ExtendedNext(rest, ids, earlier, WithIds(rest, ids, earlier), names[n], uuids[n]);
    }
  }

  lemma {:induction false} LoadedConsistent(s: Rooms, ids: map<string, string>, uuids: seq<string>)
    requires Loadable(s.names, ids, uuids) && Extended(s.names, ids, uuids, s.roomIds)
    requires forall room | room in s.roomIds :: s.roomIds[room] in s.roomsById && s.roomsById[s.roomIds[room]] == room
    requires forall id | id in s.roomsById :: s.roomsById[id] in s.roomIds && s.roomIds[s.roomsById[id]] == id
    requires forall h | h in s.nameHashes :: exists room :: room in ids && ids[room] == s.nameHashes[h]
    ensures Consistent(s) && forall room | room in s.names :: TrimSpace(room) in s.roomIds
  {
    hide TrimSpace, HasPrefix, Distinct;
  }

  function IdsOf(names: seq<string>, ids: map<string, string>): set<string> {
    set room | room in names && room in ids :: ids[room]
  }

  lemma {:induction false} NextId(names: seq<string>, ids: map<string, string>, room: string, id: string)
    requires room in ids ==> ids[room] == id
    ensures IdsOf(names + [room], ids[room := id]) == IdsOf(names, ids) + {id}
  {
    var all := ids[room := id];
    assert room in names + [room] && all[room] == id;
    forall other | other in names && other in ids ensures ids[other] in IdsOf(names + [room], all) {
      assert other in names + [room] && all[other] == ids[other];
    }
  }

  ghost function Empty(ids: set<string>): map<string, set<string>> {
    map id | id in ids :: {}
  }

  lemma {:induction false} NoneIdentified(names: seq<string>, ids: map<string, string>, uuids: seq<string>)
    requires |uuids| == |names|
    ensures WithIds(names[..0], ids, uuids[..0]) == ids && names[..0] == []
  {
  }

  lemma {:induction false} OneMoreIdentified(names: seq<string>, ids: map<string, string>, uuids: seq<string>, i: nat,
        id: string)
    requires |uuids| == |names| && i < |names|
    requires var all := WithIds(names[..i], ids, uuids[..i]); id == if names[i] in all then all[names[i]] else uuids[i]
    ensures var all := WithIds(names[..i], ids, uuids[..i]);
      && WithIds(names[..i + 1], ids, uuids[..i + 1]) == all[names[i] := id]
      && Empty(IdsOf(names[..i + 1], all[names[i] := id])) == Empty(IdsOf(names[..i], all))[id := {}]
  {
    assert names[..i + 1][..i] == names[..i] && uuids[..i + 1][..i] == uuids[..i];
    assert names[..i + 1] == names[..i] + [names[i]];
    NextId(names[..i], WithIds(names[..i], ids, uuids[..i]), names[i], id);
    hide IdsOf;
  }

  /** The loop that gives every listed room an ID and an empty set of members. */
  method IdentifyRooms(names: seq<string>, ids: map<string, string>, uuids: seq<string>)
    returns (allIds: map<string, string>, members: map<string, set<string>>)
    requires |uuids| == |names| && "" !in uuids && forall room | room in ids :: ids[room] != ""
    ensures allIds == WithIds(names, ids, uuids)
    ensures members == Empty(IdsOf(names, allIds))
  {
    allIds, members := ids, map[];
    assert IdsOf([], ids) == {} && Empty({}) == map[];
    hide IdsOf, Empty, WithIds;
    NoneIdentified(names, ids, uuids);
    for i := 0 to |names|
      invariant allIds == WithIds(names[..i], ids, uuids[..i])
      invariant forall room | room in allIds :: allIds[room] != ""
      invariant members == Empty(IdsOf(names[..i], allIds))
    {
      assert uuids[i] in uuids;
      var roomId := Lookup(allIds, names[i], "");
      if roomId == "" {
        roomId := uuids[i];
      }
      OneMoreIdentified(names, ids, uuids, i, roomId);
      allIds := allIds[names[i] := roomId];
      members := members[roomId := {}];
    }
    assert names[..|names|] == names && uuids[..|uuids|] == uuids;
  }

  /** The constructor's loop over the room IDs, in any order. */
  method InvertIds(ids: map<string, string>) returns (byId: map<string, string>)
    requires forall room | room in ids :: room != "" && ids[room] != ""
    requires forall r, q | r in ids && q in ids && ids[r] == ids[q] :: r == q
    ensures forall room | room in ids :: ids[room] in byId && byId[ids[room]] == room
    ensures forall id | id in byId :: byId[id] in ids && ids[byId[id]] == id
  {
    byId := map[];
    var pending := Collect(ids.Keys);
    for i := 0 to |pending|
      invariant forall k | 0 <= k < i ::
          pending[k] in ids && ids[pending[k]] in byId && byId[ids[pending[k]]] == pending[k]
      invariant forall id | id in byId :: byId[id] in ids && ids[byId[id]] == id
    {
      var room := pending[i];
      assert room in Elements(pending);
      byId := byId[ids[room] := room];
    }
    forall room | room in ids ensures ids[room] in byId && byId[ids[room]] == room {
      assert room in Elements(pending);
    }
  }

  /** The loop over the received entries, in any order: no entry's test depends on another entry. */
  method AcceptEntries(s: Rooms, ciphers: map<string, string>, stamps: map<string, int>, clock: string -> int)
    returns (acceptedCiphertexts: map<string, string>, acceptedUpdatedAt: map<string, int>)
    ensures acceptedCiphertexts == AcceptedCiphers(s, ciphers, stamps, clock)
    ensures acceptedUpdatedAt == AcceptedStamps(s, ciphers, stamps, clock)
  {
    hide Accepts, Incoming;
    var ids := Collect(ciphers.Keys);
    acceptedCiphertexts, acceptedUpdatedAt := map[], map[];
    for i := 0 to |ids|
      invariant forall id :: id in acceptedCiphertexts <==> id in ids[..i] && Accepts(s, ciphers, stamps, clock, id)
      invariant acceptedUpdatedAt.Keys == acceptedCiphertexts.Keys
      invariant forall id | id in acceptedCiphertexts :: id in ciphers && acceptedCiphertexts[id] == ciphers[id]
      invariant forall id | id in acceptedUpdatedAt :: acceptedUpdatedAt[id] == Incoming(stamps, clock, id)
    {
      var id := ids[i];
      assert id in Elements(ids);
      assert ids[..i + 1] == ids[..i] + [id];
      if Accepts(s, ciphers, stamps, clock, id) {
        acceptedCiphertexts := acceptedCiphertexts[id := ciphers[id]];
        acceptedUpdatedAt := acceptedUpdatedAt[id := Incoming(stamps, clock, id)];
      }
    }
    assert ids[..|ids|] == ids;
    assert forall id :: id in ids <==> id in Elements(ids);
    hide Elements;
  }

  // ---- runs ----

  datatype Event =
    | Ensure(room: string, uuid: string)
    | Open(hash: string, ciphertext: string, stamp: int, now: int, uuid: string)
    | OpenDM(name: string, user: string, introId: string, now: int)
    | Refresh(ciphers: map<string, string>, stamps: map<string, int>, clock: string -> int)

  ghost predicate Legal(s: Rooms, e: Event) {
    match e
    case Ensure(room, uuid) => HasPrefix(TrimSpace(room), DM_PREFIX) || TrimSpace(room) in s.roomIds || Fresh(s, uuid)
    case Open(_, ciphertext, _, now, uuid) => ciphertext != "" && now > 0 && Fresh(s, uuid)
    case OpenDM(_, _, _, _) => true
    case Refresh(_, _, clock) => forall id :: clock(id) > 0
  }

  ghost function Next(s: Rooms, e: Event, lower: string -> string): Rooms {
    match e
    case Ensure(room, uuid) => Ensured(s, room, uuid)
    case Open(hash, ciphertext, stamp, now, uuid) => Opened(s, hash, ciphertext, Stamp(stamp, now), uuid)
    case OpenDM(name, user, introId, now) =>
      var p := ParseDMParticipants(name);
      if p.None? || (user != p.value.first && user != p.value.second) then s
      else DMEnsured(s, lower, p.value, user, introId, now)
    case Refresh(ciphers, stamps, clock) => Refreshed(s, ciphers, stamps, clock)
  }

  ghost predicate LegalRun(s: Rooms, events: seq<Event>, lower: string -> string) {
    events == [] || (LegalRun(s, events[..|events| - 1], lower) &&
        Legal(Run(s, events[..|events| - 1], lower), events[|events| - 1]))
  }

  ghost function Run(s: Rooms, events: seq<Event>, lower: string -> string): Rooms {
    if events == [] then s else Next(Run(s, events[..|events| - 1], lower), events[|events| - 1], lower)
  }

  lemma NextKeeps(s: Rooms, e: Event, lower: string -> string)
    requires Consistent(s) && Legal(s, e)
    ensures Consistent(Next(s, e, lower)) && Extends(s, Next(s, e, lower))
  {
    hide Consistent, Extends, TrimSpace, Fresh, HasPrefix, ParseDMParticipants, Ensured, DMEnsured, Refreshed;
    hide Created, Reopened;
    match e
    case Ensure(room, uuid) => EnsuredKeeps(s, room, uuid);
    case Open(hash, ciphertext, stamp, now, uuid) =>
      if hash in s.nameHashes {
        ReopenedKeeps(s, hash, ciphertext, Stamp(stamp, now));
      } else {
        CreatedKeeps(s, hash, ciphertext, Stamp(stamp, now), uuid);
      }
    case OpenDM(name, user, introId, now) =>
      ExtendsItself(s);
      var p := ParseDMParticipants(name);
      if p.Some? {
        ParsedTrimmed(name);
        DMEnsuredKeeps(s, lower, p.value, user, introId, now);
      }
    case Refresh(ciphers, stamps, clock) => RefreshedKeeps(s, ciphers, stamps, clock);
  }

  /** SAFETY OVER RUNS. However the server's critical sections interleave, rooms and IDs stay inverse
      to each other, direct-message rooms are their own IDs, hashes name existing rooms, no assignment
      is ever changed, and no room directory timestamp goes back. */
  lemma {:induction false} RunKeeps(s: Rooms, events: seq<Event>, lower: string -> string, n: nat)
    requires Consistent(s) && LegalRun(s, events, lower) && n <= |events|
    ensures Consistent(Run(s, events, lower)) && Extends(Run(s, events[..n], lower), Run(s, events, lower))
  {
    hide Consistent, Extends, Legal, Next;
    if n == |events| {
      assert events[..n] == events;
      ExtendsItself(Run(s, events, lower));
      if events != [] {
        var before := events[..|events| - 1];
        RunKeeps(s, before, lower, 0);
        NextKeeps(Run(s, before, lower), events[|events| - 1], lower);
      }
    } else {
      var before := events[..|events| - 1];
      RunKeeps(s, before, lower, n);
      assert before[..n] == events[..n];
      NextKeeps(Run(s, before, lower), events[|events| - 1], lower);
      ExtendsTransitive(Run(s, events[..n], lower), Run(s, before, lower), Run(s, events, lower));
    }
  }

  lemma ExtendsTransitive(s: Rooms, t: Rooms, u: Rooms)
    requires Extends(s, t) && Extends(t, u)
    ensures Extends(s, u)
  {
    forall id ensures Lookup(s.updatedAt, id, 0) <= Lookup(u.updatedAt, id, 0) {
      assert Lookup(s.updatedAt, id, 0) <= Lookup(t.updatedAt, id, 0);
    }
  }
}
