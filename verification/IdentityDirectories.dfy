/** The client's identity cache (`storeIdentityDirectories`, src/utils/identityMap.ts): names by ID,
    the later timestamp winning. An absent or unusable timestamp is 0. */
module IdentityDirectories {
  import opened ChatTypes

  datatype Entry = Entry(id: string, name: string, stamp: int)

  datatype Directory = Directory(byId: map<string, string>, byName: map<string, string>, byUpdatedAt: map<string, int>)

  const EMPTY := Directory(map[], map[], map[])

  function Rank(e: Entry): int {
    if e.stamp > 0 then e.stamp else 0
  }

  /** One entry of an incoming directory: it is refused only by a named entry with a later timestamp,
      where no timestamp counts as the earliest. */
  function Apply(d: Directory, e: Entry): Directory {
    var existing := Lookup(d.byUpdatedAt, e.id, 0);
    if Lookup(d.byId, e.id, "") != "" && existing > Rank(e) then d else
      Directory(d.byId[e.id := e.name], d.byName[e.name := e.id],
                if e.stamp > 0 then d.byUpdatedAt[e.id := e.stamp]
                else if e.id in d.byUpdatedAt then d.byUpdatedAt else d.byUpdatedAt[e.id := 0])
  }

  function ApplyAll(d: Directory, s: seq<Entry>): Directory {
    if s == [] then d else Apply(ApplyAll(d, s[..|s| - 1]), s[|s| - 1])
  }

  /** Timestamps are never negative. */
  ghost predicate Valid(d: Directory) {
    forall id | id in d.byUpdatedAt :: d.byUpdatedAt[id] >= 0
  }

  class IdentityState {
    var users: Directory
    var rooms: Directory
    var currentUserId: string

    constructor ()
      ensures users == rooms == EMPTY && currentUserId == ""
    {
      users, rooms, currentUserId := EMPTY, EMPTY, "";
    }

    /** An absent directory leaves its side alone; an absent or empty current user too. */
    method StoreIdentityDirectories(userDirectory: Option<seq<Entry>>, roomDirectory: Option<seq<Entry>>,
          current: string)
      requires Valid(users) && Valid(rooms)
      modifies this
      ensures users == if userDirectory.Some? then ApplyAll(old(users), userDirectory.value) else old(users)
      ensures rooms == if roomDirectory.Some? then ApplyAll(old(rooms), roomDirectory.value) else old(rooms)
      ensures currentUserId == if current != "" then current else old(currentUserId)
      ensures Valid(users) && Valid(rooms)
    {
      if userDirectory.Some? {
        users := Merge(users, userDirectory.value);
      }
      if roomDirectory.Some? {
        rooms := Merge(rooms, roomDirectory.value);
      }
      if current != "" {
        currentUserId := current;
      }
    }
  }

  /** The loop over an incoming directory, on copies of the three records. */
  method Merge(d: Directory, entries: seq<Entry>) returns (r: Directory)
    requires Valid(d)
    ensures r == ApplyAll(d, entries) && Valid(r)
  {
    var byId, byName, byUpdatedAt := d.byId, d.byName, d.byUpdatedAt;
    for i := 0 to |entries|
      invariant Directory(byId, byName, byUpdatedAt) == ApplyAll(d, entries[..i])
      invariant Valid(Directory(byId, byName, byUpdatedAt))
    {
      assert entries[..i + 1][..i] == entries[..i];
      var e := entries[i];
      var incomingTs := e.stamp;
      var existingTs := Lookup(byUpdatedAt, e.id, 0);
      var hasNoExisting := e.id !in byId || byId[e.id] == "";
      if !hasNoExisting && incomingTs > 0 && existingTs > incomingTs {
        continue;
      }
      if !hasNoExisting && incomingTs <= 0 && existingTs > 0 {
        continue;
      }
      byId := byId[e.id := e.name];
      byName := byName[e.name := e.id];
      if incomingTs > 0 {
        byUpdatedAt := byUpdatedAt[e.id := incomingTs];
      } else if e.id !in byUpdatedAt {
        byUpdatedAt := byUpdatedAt[e.id := 0];
      }
    }
    assert entries[..|entries|] == entries;
    r := Directory(byId, byName, byUpdatedAt);
  }

  // ---- who wins ----

  predicate Named(s: seq<Entry>) {
    forall e | e in s :: e.name != ""
  }

  /** No entry of this ID has an empty name. */
  predicate NamedFor(s: seq<Entry>, id: string) {
    forall e | e in s && e.id == id :: e.name != ""
  }

  /** `e` is among the latest of its ID. */
  ghost predicate Latest(s: seq<Entry>, e: Entry) {
    e in s && forall x | x in s && x.id == e.id :: Rank(x) <= Rank(e)
  }

  /** The last delivered among the latest entries of an ID. */
  ghost function Winner(s: seq<Entry>, id: string): Option<Entry> {
    if s == [] then None else
      var w, x := Winner(s[..|s| - 1], id), s[|s| - 1];
      if x.id == id && (w.None? || Rank(w.value) <= Rank(x)) then Some(x) else w
  }

  lemma {:induction false} WinnerIsLatest(s: seq<Entry>, id: string)
    ensures var w := Winner(s, id);
      && (w.Some? ==> w.value.id == id && Latest(s, w.value))
      && (w.None? ==> forall x | x in s :: x.id != id)
  {
    if s != [] {
      assert s == s[..|s| - 1] + [s[|s| - 1]];
      WinnerIsLatest(s[..|s| - 1], id);
    }
  }

  ghost predicate Holds(d: Directory, id: string, w: Option<Entry>) {
    && (id in d.byId <==> w.Some?)
    && (id in d.byUpdatedAt <==> w.Some?)
    && (w.Some? ==> d.byId[id] == w.value.name && d.byUpdatedAt[id] == Rank(w.value))
  }

  lemma {:induction false} WinnerHolds(s: seq<Entry>, id: string)
    requires NamedFor(s, id)
    ensures Holds(ApplyAll(EMPTY, s), id, Winner(s, id))
  {
    if s != [] {
      var t, x := s[..|s| - 1], s[|s| - 1];
      assert s == t + [x];
      WinnerHolds(t, id);
      WinnerIsLatest(t, id);
    }
  }

  /** LAST WRITER WINS. After any deliveries to an empty cache, an ID without empty names is known
      exactly if some entry named it, and then with the name and the timestamp of one of its latest entries. So an entry
      without a timestamp never displaces one that has a timestamp. */
  lemma {:induction false} LatestWins(s: seq<Entry>, id: string)
    requires NamedFor(s, id)
    ensures var d := ApplyAll(EMPTY, s);
      && (id in d.byId <==> id in d.byUpdatedAt)
      && (id in d.byId <==> exists e :: e in s && e.id == id)
      && (id in d.byId ==> exists e ::
          Latest(s, e) && e.id == id && d.byId[id] == e.name && d.byUpdatedAt[id] == Rank(e))
  {
    WinnerHolds(s, id);
    WinnerIsLatest(s, id);
  }

  // ---- convergence ----

  /** Deliveries of the same entries, in any order and with repetitions. */
  ghost predicate SameDeliveries(s: seq<Entry>, t: seq<Entry>) {
    forall e :: e in s <==> e in t
  }

  /** The latest entries of an ID agree on its name. If that name is empty, the ID has no other name
      and no other timestamp. */
  ghost predicate Decided(s: seq<Entry>) {
    forall e, x | Latest(s, e) && x in s && x.id == e.id :: Undisputed(s, e, x)
  }

  ghost predicate Undisputed(s: seq<Entry>, e: Entry, x: Entry) {
    && (Latest(s, x) ==> x.name == e.name)
    && (e.name == "" ==> x.name == "" && (x.stamp <= 0 || x.stamp == e.stamp))
  }

  ghost predicate Agree(c: Directory, d: Directory) {
    c.byId == d.byId && c.byUpdatedAt == d.byUpdatedAt
  }

  ghost predicate Among(p: seq<Entry>, s: seq<Entry>) {
    forall e | e in p :: e in s
  }

  ghost predicate Reached(p: seq<Entry>, s: seq<Entry>, id: string) {
    exists e :: e in p && e.id == id && Latest(s, e)
  }

  /** What some of the entries leave: a known ID has a timestamp that is no later than the latest. */
  lemma {:induction false} Bounded(p: seq<Entry>, s: seq<Entry>, w: Entry)
    requires Among(p, s) && Latest(s, w)
    ensures var d := ApplyAll(EMPTY, p);
      && (w.id in d.byId <==> w.id in d.byUpdatedAt)
      && (w.id in d.byId <==> exists e :: e in p && e.id == w.id)
      && 0 <= Lookup(d.byUpdatedAt, w.id, 0) <= Rank(w)
  {
    if p != [] {
      var q, x := p[..|p| - 1], p[|p| - 1];
      assert p == q + [x];
      assert x in p;
      Bounded(q, s, w);
    }
  }

  lemma {:induction false} DecidedHolds(p: seq<Entry>, s: seq<Entry>, w: Entry)
    requires Among(p, s) && Latest(s, w) && Decided(s)
    ensures var d := ApplyAll(EMPTY, p);
      && (w.name == "" ==> Lookup(d.byId, w.id, "") == "" && Lookup(d.byUpdatedAt, w.id, 0) in {0, Rank(w)})
      && (Reached(p, s, w.id) ==> Lookup(d.byId, w.id, "") == w.name && Lookup(d.byUpdatedAt, w.id, 0) == Rank(w))
  {
    if p != [] {
      var q, x := p[..|p| - 1], p[|p| - 1];
      assert p == q + [x];
      assert x in p;
      Bounded(q, s, w);
      DecidedHolds(q, s, w);
      if x.id == w.id {
        assert Undisputed(s, w, x);
        AsLateAsLatest(s, w, x);
      }
    }
  }

  lemma {:induction false} AsLateAsLatest(s: seq<Entry>, w: Entry, x: Entry)
    requires Latest(s, w) && x in s && x.id == w.id
    ensures Rank(x) <= Rank(w) && (Latest(s, x) <==> Rank(x) == Rank(w))
  {
    assert Latest(s, x) ==> Rank(w) <= Rank(x);
  }

  /** What every delivery of all the entries leaves of one ID. */
  ghost predicate Final(d: Directory, s: seq<Entry>, id: string) {
    && (id in d.byId <==> id in d.byUpdatedAt)
    && (id in d.byId <==> exists w :: Latest(s, w) && w.id == id)
    && forall w | Latest(s, w) && w.id == id ::
        Lookup(d.byId, id, "") == w.name && Lookup(d.byUpdatedAt, id, 0) == Rank(w)
  }

  lemma {:induction false} DecidedFinal(s: seq<Entry>, t: seq<Entry>, id: string)
    requires Decided(s) && SameDeliveries(s, t)
    ensures Final(ApplyAll(EMPTY, t), s, id)
  {
    WinnerIsLatest(s, id);
    var found := Winner(s, id);
    hide ApplyAll, Decided, Winner;
    if found.Some? {
      Bounded(t, s, found.value);
    } else {
      Unknown(t, id);
    }
    forall w | Latest(s, w) && w.id == id
      ensures Lookup(ApplyAll(EMPTY, t).byId, id, "") == w.name &&
          Lookup(ApplyAll(EMPTY, t).byUpdatedAt, id, 0) == Rank(w)
    {
      DecidedHolds(t, s, w);
    }
  }

  lemma {:induction false} Unknown(s: seq<Entry>, id: string)
    requires forall e | e in s :: e.id != id
    ensures id !in ApplyAll(EMPTY, s).byId && id !in ApplyAll(EMPTY, s).byUpdatedAt
  {
    if s != [] {
      assert s[|s| - 1] in s && forall e | e in s[..|s| - 1] :: e in s;
      Unknown(s[..|s| - 1], id);
    }
  }

  lemma {:induction false} FinalAgrees(s: seq<Entry>, c: Directory, d: Directory, id: string)
    requires Final(c, s, id) && Final(d, s, id)
    ensures id in c.byId <==> id in d.byId
    ensures id in c.byUpdatedAt <==> id in d.byUpdatedAt
    ensures id in c.byId ==> c.byId[id] == d.byId[id]
    ensures id in c.byUpdatedAt ==> c.byUpdatedAt[id] == d.byUpdatedAt[id]
  {
    hide Latest;
  }

  lemma {:induction false} DecidedConverges(s: seq<Entry>, t: seq<Entry>)
    requires Decided(s) && SameDeliveries(s, t)
    ensures Agree(ApplyAll(EMPTY, s), ApplyAll(EMPTY, t))
  {
    hide ApplyAll, Decided, Final;
    var c, d := ApplyAll(EMPTY, s), ApplyAll(EMPTY, t);
    forall id
      ensures id in c.byId <==> id in d.byId
      ensures id in c.byUpdatedAt <==> id in d.byUpdatedAt
      ensures id in c.byId ==> c.byId[id] == d.byId[id]
      ensures id in c.byUpdatedAt ==> c.byUpdatedAt[id] == d.byUpdatedAt[id]
    {
      DecidedFinal(s, s, id);
      DecidedFinal(s, t, id);
      FinalAgrees(s, c, d, id);
    }
  }

  lemma {:induction false} LatestLast(s: seq<Entry>, e: Entry)
    requires Latest(s, e)
    ensures SameDeliveries(s, s + [e])
    ensures var d := ApplyAll(EMPTY, s + [e]);
      e.id in d.byId && e.id in d.byUpdatedAt && d.byId[e.id] == e.name && d.byUpdatedAt[e.id] == Rank(e)
  {
    var t := s + [e];
    assert t[..|t| - 1] == s;
    Bounded(s, s, e);
  }

  lemma {:induction false} DisputeShows(s: seq<Entry>, e: Entry, x: Entry)
    requires Latest(s, e) && x in s && x.id == e.id && !Undisputed(s, e, x)
    ensures SameDeliveries(s, s + [e]) && SameDeliveries(s, s + [e] + [x])
    ensures !Agree(ApplyAll(EMPTY, s + [e]), ApplyAll(EMPTY, s + [e] + [x]))
  {
    var t := s + [e];
    var u := t + [x];
    assert u[..|u| - 1] == t;
    LatestLast(s, e);
    AsLateAsLatest(s, e, x);
  }

  /** Names and timestamps are independent of the order of delivery, of repetitions and of batching
      if and only if the latest entries of every ID agree on its name, an empty one standing alone. */
  lemma {:induction false} ConvergesExactly(s: seq<Entry>)
    ensures Decided(s) <==> forall t | SameDeliveries(s, t) :: Agree(ApplyAll(EMPTY, s), ApplyAll(EMPTY, t))
  {
    hide ApplyAll, SameDeliveries, Latest, Undisputed;
    if Decided(s) {
      forall t | SameDeliveries(s, t) ensures Agree(ApplyAll(EMPTY, s), ApplyAll(EMPTY, t)) {
        DecidedConverges(s, t);
      }
    } else {
      var e, x :| Latest(s, e) && x in s && x.id == e.id && !Undisputed(s, e, x);
      DisputeShows(s, e, x);
    }
  }

  ghost predicate DistinctStamps(s: seq<Entry>) {
    forall e, x | e in s && x in s && e.id == x.id && e != x :: e.stamp > 0 && x.stamp > 0 && e.stamp != x.stamp
  }

  /** Distinct timestamps decide every name that is not empty. */
  lemma {:induction false} DistinctStampsDecide(s: seq<Entry>)
    requires DistinctStamps(s) && Named(s)
    ensures Decided(s)
  {
    forall e, x | Latest(s, e) && x in s && x.id == e.id ensures Undisputed(s, e, x) {
      AsLateAsLatest(s, e, x);
    }
  }

  /** Two directories applied one after the other are one directory. */
  lemma {:induction false} Batching(d: Directory, a: seq<Entry>, b: seq<Entry>)
    ensures ApplyAll(ApplyAll(d, a), b) == ApplyAll(d, a + b)
  {
    hide Apply;
    if b == [] {
      assert a + b == a;
    } else {
      assert (a + b)[..|a + b| - 1] == a + b[..|b| - 1];
      Batching(d, a, b[..|b| - 1]);
    }
  }

  // ---- timestamps never go back ----

  lemma {:induction false} StampsGrow(d: Directory, s: seq<Entry>, id: string)
    requires NamedFor(s, id) && Valid(d) && id in d.byUpdatedAt && Lookup(d.byId, id, "") != ""
    ensures var r := ApplyAll(d, s);
      id in r.byUpdatedAt && d.byUpdatedAt[id] <= r.byUpdatedAt[id] && Lookup(r.byId, id, "") != "" && Valid(r)
  {
    if s != [] {
      assert s == s[..|s| - 1] + [s[|s| - 1]];
      StampsGrow(d, s[..|s| - 1], id);
    }
  }

  ghost predicate Indexed(d: Directory) {
    forall id | id in d.byId :: d.byId[id] in d.byName
  }

  /** A known name can always be looked up the other way. */
  lemma {:induction false} NamesIndexed(d: Directory, s: seq<Entry>)
    requires Indexed(d)
    ensures Indexed(ApplyAll(d, s))
  {
    if s != [] {
      NamesIndexed(d, s[..|s| - 1]);
    }
  }

  // ---- the reverse index ----

  /** No name belongs to two IDs. */
  ghost predicate OneOwner(s: seq<Entry>) {
    forall e, x | e in s && x in s && e.name == x.name :: e.id == x.id
  }

  /** Every name that occurs is one that a latest entry of its ID has. */
  ghost predicate Current(s: seq<Entry>) {
    forall e | e in s :: exists x :: Latest(s, x) && x.id == e.id && x.name == e.name
  }

  function OfId(s: seq<Entry>, id: string, same: bool): (r: seq<Entry>)
    ensures forall e :: e in r <==> e in s && (e.id == id) == same
  {
    if s == [] then []
    else OfId(s[..|s| - 1], id, same) + if (s[|s| - 1].id == id) == same then [s[|s| - 1]] else []
  }

  lemma {:induction false} OwnerStays(d: Directory, s: seq<Entry>, id: string, name: string)
    requires name in d.byName && d.byName[name] == id && forall e | e in s :: e.id == id
    ensures name in ApplyAll(d, s).byName && ApplyAll(d, s).byName[name] == id
  {
    if s != [] {
      assert s[|s| - 1] in s && forall e | e in s[..|s| - 1] :: e in s;
      OwnerStays(d, s[..|s| - 1], id, name);
    }
  }

  /** Any entry can be delivered so that its name ends up naming its ID: after all other IDs, and
      before the rest of its own. */
  lemma {:induction false} CanOwn(s: seq<Entry>, e: Entry) returns (t: seq<Entry>)
    requires e in s
    ensures SameDeliveries(s, t) && e.name in ApplyAll(EMPTY, t).byName && ApplyAll(EMPTY, t).byName[e.name] == e.id
  {
    var others, own := OfId(s, e.id, false), OfId(s, e.id, true);
    t := others + [e] + own;
    Unknown(others, e.id);
    Batching(EMPTY, others, [e]);
    Batching(EMPTY, others + [e], own);
    OneEntry(ApplyAll(EMPTY, others), e);
    OwnerStays(ApplyAll(EMPTY, others + [e]), own, e.id, e.name);
  }

  lemma {:induction false} OneEntry(d: Directory, e: Entry)
    ensures ApplyAll(d, [e]) == Apply(d, e)
  {
    var s := [e];
    assert s[..0] == [];
  }

  /** After a later entry of its ID, an entry does not bring its name in. */
  lemma {:induction false} KeptOut(d: Directory, s: seq<Entry>, id: string, rank: int, name: string)
    requires Named(s) && Lookup(d.byId, id, "") != "" && Lookup(d.byUpdatedAt, id, 0) >= rank && name !in d.byName
    requires forall e | e in s && e.name == name :: e.id == id && Rank(e) < rank
    ensures name !in ApplyAll(d, s).byName
    ensures Lookup(ApplyAll(d, s).byId, id, "") != "" && Lookup(ApplyAll(d, s).byUpdatedAt, id, 0) >= rank
  {
    if s != [] {
      assert s[|s| - 1] in s && forall e | e in s[..|s| - 1] :: e in s;
      KeptOut(d, s[..|s| - 1], id, rank, name);
    }
  }

  lemma {:induction false} NamesStay(d: Directory, s: seq<Entry>, name: string)
    requires name in d.byName
    ensures name in ApplyAll(d, s).byName
  {
    if s != [] { NamesStay(d, s[..|s| - 1], name); }
  }

  lemma {:induction false} IndexedFrom(s: seq<Entry>, name: string)
    requires name in ApplyAll(EMPTY, s).byName
    ensures exists e :: e in s && e.name == name && e.id == ApplyAll(EMPTY, s).byName[name]
  {
    if s != [] {
      var t, x := s[..|s| - 1], s[|s| - 1];
      assert s == t + [x] && x in s;
      if name in ApplyAll(EMPTY, t).byName {
        IndexedFrom(t, name);
        var e :| e in t && e.name == name && e.id == ApplyAll(EMPTY, t).byName[name];
        assert e in s;
      }
    }
  }

  /** A latest entry is accepted whenever it is delivered. */
  lemma {:induction false} LatestIndexed(s: seq<Entry>, e: Entry)
    requires Named(s) && Latest(s, e)
    ensures e.name in ApplyAll(EMPTY, s).byName
  {
    var i :| 0 <= i < |s| && s[i] == e;
    var before, rest := s[..i], s[i + 1..];
    assert s == before + [e] + rest;
    WinnerHolds(before, e.id);
    WinnerIsLatest(before, e.id);
    Batching(EMPTY, before, [e]);
    Batching(EMPTY, before + [e], rest);
    OneEntry(ApplyAll(EMPTY, before), e);
    NamesStay(ApplyAll(EMPTY, before + [e]), rest, e.name);
  }

  lemma {:induction false} SameLatest(s: seq<Entry>, t: seq<Entry>)
    requires SameDeliveries(s, t)
    ensures SameDeliveries(t, s)
    ensures OneOwner(s) == OneOwner(t) && Current(s) == Current(t) && Named(s) == Named(t)
    ensures forall e :: Latest(s, e) <==> Latest(t, e)
  {
  }

  /** With one owner for each current name the reverse index lists every name delivered. */
  lemma {:induction false} IndexLists(s: seq<Entry>, e: Entry)
    requires Named(s) && OneOwner(s) && Current(s) && e in s
    ensures e.name in ApplyAll(EMPTY, s).byName && ApplyAll(EMPTY, s).byName[e.name] == e.id
  {
    var x :| Latest(s, x) && x.id == e.id && x.name == e.name;
    hide ApplyAll, Current, Latest, Named;
    LatestIndexed(s, x);
    IndexedFrom(s, e.name);
  }

  lemma {:induction false} IndexWithin(s: seq<Entry>, t: seq<Entry>, name: string)
    requires Named(t) && OneOwner(t) && Current(t) && SameDeliveries(s, t) && name in ApplyAll(EMPTY, s).byName
    ensures var n := ApplyAll(EMPTY, t).byName; name in n && n[name] == ApplyAll(EMPTY, s).byName[name]
  {
    hide ApplyAll, OneOwner, Current, Named;
    IndexedFrom(s, name);
    var e :| e in s && e.name == name && e.id == ApplyAll(EMPTY, s).byName[name];
    IndexLists(t, e);
  }

  lemma {:induction false} IndexConverges(s: seq<Entry>, t: seq<Entry>)
    requires Named(s) && OneOwner(s) && Current(s) && SameDeliveries(s, t)
    ensures ApplyAll(EMPTY, s).byName == ApplyAll(EMPTY, t).byName
  {
    hide ApplyAll, OneOwner, Current, Latest, Named, SameDeliveries;
    SameLatest(s, t);
    var m, n := ApplyAll(EMPTY, s).byName, ApplyAll(EMPTY, t).byName;
    forall name | name in m ensures name in n && m[name] == n[name] {
      IndexWithin(s, t, name);
    }
    forall name | name in n ensures name in m {
      IndexWithin(t, s, name);
    }
  }

  /** A name that is not current can be delivered too late. */
  lemma {:induction false} CanMiss(s: seq<Entry>, e: Entry) returns (t: seq<Entry>)
    requires Named(s) && OneOwner(s) && e in s && !exists x :: Latest(s, x) && x.id == e.id && x.name == e.name
    ensures SameDeliveries(s, t) && e.name !in ApplyAll(EMPTY, t).byName
  {
    WinnerIsLatest(s, e.id);
    var w := Winner(s, e.id).value;
    t := [w] + s;
    OneEntry(EMPTY, w);
    Batching(EMPTY, [w], s);
    forall x | x in s && x.name == e.name ensures x.id == w.id && Rank(x) < Rank(w) {
      AsLateAsLatest(s, w, x);
    }
    KeptOut(ApplyAll(EMPTY, [w]), s, w.id, Rank(w), e.name);
  }

  /** The reverse index is independent of the order of delivery if and only if no name belongs to two
      IDs and every name is still current for its ID. */
  lemma {:induction false} ReverseIndexExactly(s: seq<Entry>)
    requires Named(s)
    ensures OneOwner(s) && Current(s)
       <==> forall t | SameDeliveries(s, t) :: ApplyAll(EMPTY, s).byName == ApplyAll(EMPTY, t).byName
  {
    hide ApplyAll, SameDeliveries, Latest, Named;
    if OneOwner(s) && Current(s) {
      forall t | SameDeliveries(s, t) ensures ApplyAll(EMPTY, s).byName == ApplyAll(EMPTY, t).byName {
        IndexConverges(s, t);
      }
    } else if !OneOwner(s) {
      var e, x :| e in s && x in s && e.name == x.name && e.id != x.id;
      var t := CanOwn(s, e);
      var u := CanOwn(s, x);
    } else {
      var e :| e in s && !exists x :: Latest(s, x) && x.id == e.id && x.name == e.name;
      var t := CanOwn(s, e);
      var u := CanMiss(s, e);
    }
  }

  /** So it is not convergent where the names are: it keeps a superseded name if that came first. */
  lemma ReverseIndexDependsOnOrder()
    ensures exists s, t :: Named(s) && Decided(s) && SameDeliveries(s, t)
              && ApplyAll(EMPTY, s).byName != ApplyAll(EMPTY, t).byName
  {
    var a, b := Entry("u", "old name", 1), Entry("u", "new name", 2);
    TwoEntries(a, b);
    TwoEntries(b, a);
    assert ApplyAll(EMPTY, [a, b]).byName == map["old name" := "u", "new name" := "u"];
    assert "old name" !in ApplyAll(EMPTY, [b, a]).byName;
    assert Decided([a, b]);
    assert SameDeliveries([a, b], [b, a]);
  }

  lemma TwoEntries(a: Entry, b: Entry)
    ensures ApplyAll(EMPTY, [a, b]) == Apply(Apply(EMPTY, a), b)
  {
    var s, t := [a, b], [a];
    assert s[..1] == t && t[..0] == [];
    assert ApplyAll(EMPTY, t) == Apply(EMPTY, a);
  }

  /** An empty name gives up its timestamp: an older name then replaces it. */
  lemma EmptyNameYields()
    ensures exists s, t :: DistinctStamps(s) && SameDeliveries(s, t) && !Agree(ApplyAll(EMPTY, s), ApplyAll(EMPTY, t))
  {
    var a, b := Entry("u", "", 2), Entry("u", "name", 1);
    TwoEntries(a, b);
    TwoEntries(b, a);
    assert ApplyAll(EMPTY, [a, b]).byId == map["u" := "name"];
    assert ApplyAll(EMPTY, [b, a]).byId == map["u" := ""];
    assert SameDeliveries([a, b], [b, a]);
  }

  /** Entry `i` is among the latest of its ID, and delivered last of these. */
  ghost predicate LastOfLatest(s: seq<Entry>, i: int) {
    && 0 <= i < |s| && (forall j | 0 <= j < |s| && s[j].id == s[i].id :: Rank(s[j]) <= Rank(s[i]))
    && forall j | i < j < |s| && s[j].id == s[i].id :: Rank(s[j]) < Rank(s[i])
  }

  /** Of the latest entries of an ID, the one delivered last is what is known. */
  lemma {:induction false} LastDeliveredWins(s: seq<Entry>, i: int)
    requires LastOfLatest(s, i) && NamedFor(s, s[i].id)
    ensures var d := ApplyAll(EMPTY, s);
      s[i].id in d.byId && d.byId[s[i].id] == s[i].name && Lookup(d.byUpdatedAt, s[i].id, 0) == Rank(s[i])
  {
    WinnerHolds(s, s[i].id);
    LastIsWinner(s, i);
  }

  lemma {:induction false} LastIsWinner(s: seq<Entry>, i: int)
    requires LastOfLatest(s, i)
    ensures Winner(s, s[i].id) == Some(s[i])
  {
    var n := |s| - 1;
    if i < n {
      assert forall j | 0 <= j < n :: s[..n][j] == s[j];
      LastIsWinner(s[..n], i);
    } else {
      WinnerIsLatest(s[..n], s[i].id);
    }
  }
}
