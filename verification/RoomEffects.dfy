/** What the server's room operations make of the rooms and their directory. */
module RoomEffects {
  import opened ChatTypes
  import opened Text
  import opened ServerRooms

  // ---- the directory ----

  /** The name ciphertext and the timestamp stored for a room ID. */
  function EntryOf(s: Rooms, id: string): (string, int) {
    (Lookup(s.ciphertexts, id, ""), Lookup(s.updatedAt, id, 0))
  }

  /** The timestamp an entry comes with; without one it is the time of the request. */
  function GivenStamp(stamps: map<string, int>, clock: string -> int, id: string): int {
    if id in stamps && stamps[id] > 0 then stamps[id] else clock(id)
  }

  /** REFRESH. An entry that is not empty, for a room that exists, is stored with its timestamp unless the
      one stored is later; every other entry is ignored, and nothing but the directory changes. */
  lemma {:induction false} RefreshedExactly(s: Rooms, ciphers: map<string, string>, stamps: map<string, int>,
        clock: string -> int, id: string)
    ensures var t, stamp := Refreshed(s, ciphers, stamps, clock), GivenStamp(stamps, clock, id);
      var stored := EntryOf(s, id).1;
      && EntryOf(t, id) == (if id in ciphers && id != "" && ciphers[id] != "" && id in s.roomsById
                               && (stored <= 0 || stamp >= stored)
                            then (ciphers[id], stamp) else EntryOf(s, id))
      && t == s.(ciphertexts := t.ciphertexts, updatedAt := t.updatedAt)
  {
  }

  /** A known hash finds its room, which keeps a name it has; without one it takes the name given, unless
      a later timestamp is stored. Nothing else changes. */
  lemma {:induction false} ReopenedExactly(s: Rooms, hash: string, ciphertext: string, stamp: int, uuid: string,
        other: string)
    requires hash in s.nameHashes
    ensures var t, id := Opened(s, hash, ciphertext, stamp, uuid), s.nameHashes[hash];
      && EntryOf(t, id) == (if EntryOf(s, id).0 == "" && (EntryOf(s, id).1 == 0 || stamp >= EntryOf(s, id).1)
                            then (ciphertext, stamp) else EntryOf(s, id))
      && (other != id ==> EntryOf(t, other) == EntryOf(s, other))
      && t == s.(ciphertexts := t.ciphertexts, updatedAt := t.updatedAt)
  {
  }

  /** A new hash makes a new room: last in the list, its own ID, with the name given, no messages and, if
      it had none, no members. */
  lemma {:induction false} CreatedExactly(s: Rooms, hash: string, ciphertext: string, stamp: int, uuid: string,
        other: string)
    requires hash !in s.nameHashes
    ensures var t := Opened(s, hash, ciphertext, stamp, uuid);
      && t.names == s.names + [uuid] && t.roomIds == s.roomIds[uuid := uuid] && t.roomsById == s.roomsById[uuid := uuid]
      && t.nameHashes == s.nameHashes[hash := uuid] && t.messages == s.messages[uuid := []]
      && EntryOf(t, uuid) == (ciphertext, stamp) && (other != uuid ==> EntryOf(t, other) == EntryOf(s, other))
      && Lookup(t.members, uuid, {}) == Lookup(s.members, uuid, {})
      && (other != uuid ==> Lookup(t.members, other, {}) == Lookup(s.members, other, {}))
  {
  }

  // ---- the directory over runs ----

  /** The event offers this entry for the room. */
  ghost predicate Offers(e: Event, id: string, text: string, stamp: int) {
    match e
    case Refresh(ciphers, stamps, clock) =>
      id in ciphers && text == ciphers[id] != "" && stamp == GivenStamp(stamps, clock, id)
    case Open(_, ciphertext, given, now, _) => text == ciphertext && stamp == if given > 0 then given else now
    case _ => false
  }

  lemma {:induction false} EntryNext(s: Rooms, e: Event, lower: string -> string, id: string)
    ensures var t := Next(s, e, lower);
      EntryOf(t, id) == EntryOf(s, id) || Offers(e, id, EntryOf(t, id).0, EntryOf(t, id).1)
  {
    hide TrimSpace, ParseDMParticipants, IntroMessages, BuildCanonicalDMRoom, HasPrefix;
    match e
    case Ensure(room, uuid) =>
    case Open(hash, ciphertext, stamp, now, uuid) =>
      if hash in s.nameHashes {
        ReopenedExactly(s, hash, ciphertext, Stamp(stamp, now), uuid, id);
      } else {
        CreatedExactly(s, hash, ciphertext, Stamp(stamp, now), uuid, id);
      }
      hide Opened;
    case OpenDM(name, user, introId, now) =>
    case Refresh(ciphers, stamps, clock) =>
      RefreshedExactly(s, ciphers, stamps, clock, id);
      hide Refreshed;
  }

  lemma {:induction false} RunNext(s: Rooms, events: seq<Event>, lower: string -> string, i: nat)
    requires i < |events|
    ensures Run(s, events[..i + 1], lower) == Next(Run(s, events[..i], lower), events[i], lower)
  {
    hide Next;
    assert events[..i + 1][..i] == events[..i];
  }

  /** Whatever is stored for a room was stored before, or offered by one request, text and timestamp
      together. */
  lemma {:induction false} StoredWasOffered(s: Rooms, events: seq<Event>, lower: string -> string, id: string)
    ensures var entry := EntryOf(Run(s, events, lower), id);
      entry == EntryOf(s, id) || exists i | 0 <= i < |events| :: Offers(events[i], id, entry.0, entry.1)
  {
    hide Next, Offers, EntryOf;
    if events != [] {
      var before, e := events[..|events| - 1], events[|events| - 1];
      StoredWasOffered(s, before, lower, id);
      EntryNext(Run(s, before, lower), e, lower, id);
      assert forall i | 0 <= i < |before| :: before[i] == events[i];
    }
  }

  /** THE LATEST STAYS. However requests interleave, the timestamp stored for a room in the end is not
      before that of any entry a refresh offered for it while it existed. */
  lemma {:induction false} LatestStays(s: Rooms, events: seq<Event>, lower: string -> string, id: string, i: nat)
    requires Consistent(s) && LegalRun(s, events, lower) && i < |events| && events[i].Refresh?
    requires id in events[i].ciphers && id != "" && events[i].ciphers[id] != ""
    requires id in Run(s, events[..i], lower).roomsById
    ensures EntryOf(Run(s, events, lower), id).1 >= GivenStamp(events[i].stamps, events[i].clock, id)
  {
    hide *;
    RunNext(s, events, lower, i);
    RunKeeps(s, events, lower, i + 1);
    RefreshStored(Run(s, events[..i], lower), events[i], lower, id);
    NotBefore(Run(s, events[..i + 1], lower), Run(s, events, lower), id);
  }

  lemma {:induction false} RefreshStored(s: Rooms, e: Event, lower: string -> string, id: string)
    requires e.Refresh? && id in e.ciphers && id != "" && e.ciphers[id] != "" && id in s.roomsById
    ensures EntryOf(Next(s, e, lower), id).1 >= GivenStamp(e.stamps, e.clock, id)
  {
    RefreshedExactly(s, e.ciphers, e.stamps, e.clock, id);
    hide Refreshed, GivenStamp;
  }

  lemma {:induction false} NotBefore(s: Rooms, t: Rooms, id: string)
    requires Extends(s, t)
    ensures EntryOf(s, id).1 <= EntryOf(t, id).1
  {
    hide Grows;
  }

  // ---- direct messages ----

  /** The name of a direct-message room lists the two participants, the one whose lower-cased ID is smaller
      first; if neither is, in the order given. */
  lemma {:induction false} SmallerFirst(lower: string -> string, a: string, b: string)
    ensures var x, y := TrimSpace(a), TrimSpace(b);
      && (Less(lower(x), lower(y)) ==> BuildCanonicalDMRoom(lower, a, b) == "@dmid:" + x + "|" + y)
      && (Less(lower(y), lower(x)) ==> BuildCanonicalDMRoom(lower, a, b) == "@dmid:" + y + "|" + x)
      && (lower(x) == lower(y) ==> BuildCanonicalDMRoom(lower, a, b) == "@dmid:" + x + "|" + y)
  {
    var x, y := lower(TrimSpace(a)), lower(TrimSpace(b));
    LessIrreflexive(x);
    if Less(x, y) && Less(y, x) { LessTransitive(x, y, x); }
    hide TrimSpace;
  }

  /** The room of two participants: under its own name and ID, listed once, with both as members, and if it
      is new with the introduction. Other rooms stay as they were. */
  lemma {:induction false} DMRoomExactly(s: Rooms, lower: string -> string, p: Pair, user: string, introId: string,
        now: int, other: string)
    ensures var room, t := BuildCanonicalDMRoom(lower, p.first, p.second), DMEnsured(s, lower, p, user, introId, now);
      && t.roomIds == s.roomIds[room := room] && t.roomsById == s.roomsById[room := room]
      && t.names == (if room in s.names then s.names else s.names + [room])
      && Lookup(t.members, room, {}) == Lookup(s.members, room, {}) + {p.first, p.second}
      && (other != room ==> Lookup(t.members, other, {}) == Lookup(s.members, other, {}))
      && t.messages == (if room in s.messages then s.messages
                        else s.messages[room := IntroMessages(room, room, user, introId, now)])
      && t.ciphertexts == s.ciphertexts && t.updatedAt == s.updatedAt && t.nameHashes == s.nameHashes
  {
    hide BuildCanonicalDMRoom, IntroMessages;
  }

  lemma {:induction false} OtherOne(lower: string -> string, p: Pair, user: string)
    requires TrimSpace(p.first) == p.first && TrimSpace(p.second) == p.second && (user == p.first || user == p.second)
    ensures OtherParticipant(Ordered(lower, p.first, p.second), user) == if user == p.first then p.second else p.first
  {
    hide TrimSpace, Less;
  }

  lemma {:induction false} GreetingNames(other: string)
    requires other != "" && TrimSpace(other) == other
    ensures "You are at the beginning of an awesome conversation with "
            + (if other == "" then "" else "userId:" + TrimSpace(other)) == Greeting() + other
  {
    hide TrimSpace;
    assert "You are at the beginning of an awesome conversation with " + "userId:" == Greeting();
  }

  function Greeting(): string {
    "You are at the beginning of an awesome conversation with userId:"
  }

  /** The introduction is one message of the system that names the other participant. */
  lemma {:induction false} IntroExactly(lower: string -> string, p: Pair, user: string, introId: string, now: int)
    requires TrimSpace(p.first) == p.first != "" && TrimSpace(p.second) == p.second != "" && '|' !in p.first
    requires '|' !in p.second && (user == p.first || user == p.second)
    ensures var room := BuildCanonicalDMRoom(lower, p.first, p.second);
      var intro := IntroMessages(room, room, user, introId, now);
      && |intro| == 1 && intro[0].userId == "system" && intro[0].id == introId && intro[0].timestamp == now
      && intro[0].roomId == room && intro[0].content == Greeting() + if user == p.first then p.second else p.first
  {
    CanonicalStable(lower, p.first, p.second);
    OtherOne(lower, p, user);
    GreetingNames(if user == p.first then p.second else p.first);
    hide TrimSpace, BuildCanonicalDMRoom, ParseDMParticipants, Greeting, Ordered, OtherParticipant;
  }

  // ---- room names and IDs ----

  /** The name is the prefix, a part without a bar, a bar and another part, which are the participants once
      trimmed. */
  ghost predicate Names(room: string, p: Pair, x: string, y: string) {
    room == "@dmid:" + x + "|" + y && '|' !in x && TrimSpace(x) == p.first != "" && TrimSpace(y) == p.second != ""
  }

  /** A room name has participants exactly if it is of that form. */
  lemma {:induction false} ParsesExactly(room: string, p: Pair)
    ensures ParseDMParticipants(room) == Some(p) <==> exists x, y :: Names(room, p, x, y)
  {
    if ParseDMParticipants(room) == Some(p) {
      var rest := room[|DM_PREFIX|..];
      var i := Bar(rest);
      hide TrimSpace;
      assert room == DM_PREFIX + rest && rest == rest[..i] + "|" + rest[i + 1..];
      assert DM_PREFIX + (rest[..i] + "|" + rest[i + 1..]) == DM_PREFIX + rest[..i] + "|" + rest[i + 1..];
      assert Names(room, p, rest[..i], rest[i + 1..]);
    }
    if x, y :| Names(room, p, x, y) {
      NamedParses(room, p, x, y);
    }
  }

  lemma {:induction false} NamedParses(room: string, p: Pair, x: string, y: string)
    requires Names(room, p, x, y)
    ensures ParseDMParticipants(room) == Some(p)
  {
    var rest := x + ['|'] + y;
    assert room == DM_PREFIX + rest && room[|DM_PREFIX|..] == rest && room[..|DM_PREFIX|] == DM_PREFIX;
    BarAt(x, y);
    SeparatorAt(x, y, '|');
    NotBlank(x, y);
    hide TrimSpace;
  }

  lemma {:induction false} NotBlank(x: string, y: string)
    requires TrimSpace(x) != ""
    ensures TrimSpace(x + ['|'] + y) != ""
  {
    var s := x + ['|'] + y;
    hide TrimSpace, IsSpace;
    var i, j := TrimPlaces(s);
    assert s[|x|] == '|' && !IsSpace('|') by { BarIsNoSpace(); }
  }

  lemma BarIsNoSpace()
    ensures !IsSpace('|')
  {
  }

  /** The ID of a room: none without a name, a direct-message room's name, the one it has, or else the new
      one; recorded both ways and changing nothing else. */
  lemma {:induction false} EnsuredExactly(s: Rooms, room: string, uuid: string)
    ensures var name, id, t := TrimSpace(room), EnsuredId(s, room, uuid), Ensured(s, room, uuid);
      && (name == "" ==> id == "" && t == s)
      && (name != "" && "@dmid:" <= name ==> id == name)
      && (name != "" && !("@dmid:" <= name) && name in s.roomIds && s.roomIds[name] != "" ==> id == s.roomIds[name])
      && (name != "" && !("@dmid:" <= name) && !(name in s.roomIds && s.roomIds[name] != "") ==> id == uuid)
      && (name != "" ==> t == s.(roomIds := s.roomIds[name := id], roomsById := s.roomsById[id := name]))
  {
    hide TrimSpace;
  }

  /** Of the listed rooms of a loaded database, one with an ID keeps it and one without gets the UUID at its
      place. */
  lemma {:induction false} StartIds(names: seq<string>, ids: map<string, string>, uuids: seq<string>, i: nat)
    requires |uuids| == |names| && i < |names| && forall j, k | 0 <= j < k < |names| :: names[j] != names[k]
    ensures names[i] in WithIds(names, ids, uuids)
    ensures WithIds(names, ids, uuids)[names[i]] == if names[i] in ids then ids[names[i]] else uuids[i]
  {
    var n := |names| - 1;
    if i < n {
      StartIds(names[..n], ids, uuids[..n], i);
    } else {
      OnlyListed(names[..n], ids, uuids[..n], names[n]);
    }
  }

  lemma {:induction false} OnlyListed(names: seq<string>, ids: map<string, string>, uuids: seq<string>, room: string)
    requires |uuids| == |names| && room !in names
    ensures var all := WithIds(names, ids, uuids);
      (room in all <==> room in ids) && (room in ids ==> all[room] == ids[room])
  {
    if names != [] {
      var n := |names| - 1;
      assert names[n] in names && forall r | r in names[..n] :: r in names;
      OnlyListed(names[..n], ids, uuids[..n], room);
    }
  }
}
