/** `dedupeMemberships` (src/utils/serverRegistry.ts): memberships are filed under the canonical ID of
    their server, one per account. An absent shorthand or alias is the empty string; both are falsy. */
module ServerRegistry {
  import opened Text
  import opened Sorting

  datatype Membership = Membership(
    serverId: string,
    serverLabel: string,
    shorthand: string,
    alias: string,
    username: string,
    userId: string)

  function Or(a: string, b: string): string {
    if a != "" then a else b
  }

  function Find(m: map<string, string>, key: string): string {
    if key in m then m[key] else ""
  }

  predicate RealAlias(m: Membership) {
    m.alias != "" && m.alias != m.serverId
  }

  // ---- aliases ----

  datatype AliasTable = AliasTable(canonical: map<string, string>, ambiguous: set<string>)

  function AddAlias(t: AliasTable, m: Membership): AliasTable {
    if !RealAlias(m) then t
    else if Find(t.canonical, m.alias) != "" && Find(t.canonical, m.alias) != m.serverId then
      t.(ambiguous := t.ambiguous + {m.alias})
    else t.(canonical := t.canonical[m.alias := m.serverId])
  }

  function Aliases(ms: seq<Membership>): AliasTable {
    if ms == [] then AliasTable(map[], {}) else AddAlias(Aliases(ms[..|ms| - 1]), ms[|ms| - 1])
  }

  /** The server a membership is filed under. */
  function CanonicalId(t: AliasTable, m: Membership): string {
    if RealAlias(m) || m.serverId in t.ambiguous then m.serverId
    else Or(Find(t.canonical, m.serverId), m.serverId)
  }

  // ---- merging ----

  /** A JavaScript Map: entries by key, and the keys in insertion order. */
  datatype Registry = Registry(order: seq<string>, entries: map<string, Membership>)

  function AccountKey(serverId: string, userId: string): string {
    serverId + "\0" + userId
  }

  function Merge(previous: Membership, m: Membership, serverId: string): Membership {
    m.(serverId := serverId,
       shorthand := Or(m.shorthand, previous.shorthand),
       alias := Or(m.alias, Or(previous.alias, if serverId != m.serverId then m.serverId else "")))
  }

  const NOBODY := Membership("", "", "", "", "", "")

  function File(t: AliasTable, r: Registry, m: Membership): Registry {
    var serverId := CanonicalId(t, m);
    var key := AccountKey(serverId, m.userId);
    var previous := if key in r.entries then r.entries[key] else NOBODY;
    Registry(if key in r.entries then r.order else r.order + [key],
             r.entries[key := Merge(previous, m, serverId)])
  }

  function FileAll(t: AliasTable, ms: seq<Membership>): Registry {
    if ms == [] then Registry([], map[]) else File(t, FileAll(t, ms[..|ms| - 1]), ms[|ms| - 1])
  }

  predicate Keyed(r: Registry) {
    Distinct(r.order) && Elements(r.order) == r.entries.Keys
    && forall i | 0 <= i < |r.order| :: r.order[i] in r.entries
  }

  function Values(r: Registry): seq<Membership>
    requires Keyed(r)
  {
    seq(|r.order|, i requires 0 <= i < |r.order| => r.entries[r.order[i]])
  }

  function Deduped(ms: seq<Membership>): seq<Membership> {
    FileAllKeyed(Aliases(ms), ms);
    Values(FileAll(Aliases(ms), ms))
  }

  method DedupeMemberships(memberships: seq<Membership>) returns (r: seq<Membership>)
    ensures r == Deduped(memberships)
  {
    hide Merge;
    var canonicalByAlias: map<string, string> := map[];
    var ambiguousAliases: set<string> := {};
    for i := 0 to |memberships|
      invariant AliasTable(canonicalByAlias, ambiguousAliases) == Aliases(memberships[..i])
    {
      var m := memberships[i];
      assert memberships[..i + 1][..i] == memberships[..i];
      if m.alias != "" && m.alias != m.serverId {
        var existing := Find(canonicalByAlias, m.alias);
        if existing != "" && existing != m.serverId {
          ambiguousAliases := ambiguousAliases + {m.alias};
        } else {
          canonicalByAlias := canonicalByAlias[m.alias := m.serverId];
        }
      }
    }
    assert memberships[..|memberships|] == memberships;
    r := FileMemberships(AliasTable(canonicalByAlias, ambiguousAliases), memberships);
  }

  /** The second loop. */
  method FileMemberships(t: AliasTable, memberships: seq<Membership>) returns (r: seq<Membership>)
    ensures Keyed(FileAll(t, memberships)) && r == Values(FileAll(t, memberships))
  {
    hide Merge;
    hide AccountKey;
    var order: seq<string> := [];
    var entries: map<string, Membership> := map[];
    for i := 0 to |memberships|
      invariant Registry(order, entries) == FileAll(t, memberships[..i])
    {
      var m := memberships[i];
      assert memberships[..i + 1][..i] == memberships[..i];
      var serverId := if (m.alias != "" && m.alias != m.serverId) || m.serverId in t.ambiguous then m.serverId
                      else Or(Find(t.canonical, m.serverId), m.serverId);
      var key := AccountKey(serverId, m.userId);
      if key in entries {
        entries := entries[key := Merge(entries[key], m, serverId)];
      } else {
        order := order + [key];
        entries := entries[key := Merge(NOBODY, m, serverId)];
      }
    }
    assert memberships[..|memberships|] == memberships;
    FileAllKeyed(t, memberships);
    r := Values(Registry(order, entries));
  }

  // ---- one entry per account ----

  lemma {:induction false} FileAllKeyed(t: AliasTable, ms: seq<Membership>)
    ensures Keyed(FileAll(t, ms))
    ensures forall key | key in FileAll(t, ms).entries ::
      var e := FileAll(t, ms).entries[key]; key == AccountKey(e.serverId, e.userId)
  {
    hide AccountKey, CanonicalId;
    if ms != [] {
      FileAllKeyed(t, ms[..|ms| - 1]);
      var r, m := FileAll(t, ms[..|ms| - 1]), ms[|ms| - 1];
      var key := AccountKey(CanonicalId(t, m), m.userId);
      if key !in r.entries {
        AppendDistinct(r.order, key);
      }
    }
  }

  /** ONE ENTRY PER ACCOUNT. No two entries have the same server and user. */
  lemma OnePerAccount(ms: seq<Membership>, i: int, j: int)
    requires 0 <= i < j < |Deduped(ms)|
    ensures (Deduped(ms)[i].serverId, Deduped(ms)[i].userId) != (Deduped(ms)[j].serverId, Deduped(ms)[j].userId)
  {
    hide AccountKey;
    FileAllKeyed(Aliases(ms), ms);
    var r := FileAll(Aliases(ms), ms);
    assert r.order[i] != r.order[j];
  }

  /** Memberships with the same account key are of the same account. */
  predicate Apart(t: AliasTable, ms: seq<Membership>) {
    forall m, n | m in ms && n in ms
      && AccountKey(CanonicalId(t, m), m.userId) == AccountKey(CanonicalId(t, n), n.userId) ::
      CanonicalId(t, m) == CanonicalId(t, n) && m.userId == n.userId
  }

  predicate KeyApart(ms: seq<Membership>) {
    Apart(Aliases(ms), ms)
  }

  predicate Covers(r: Registry, t: AliasTable, m: Membership) {
    var key := AccountKey(CanonicalId(t, m), m.userId);
    key in r.entries && r.entries[key].serverId == CanonicalId(t, m) && r.entries[key].userId == m.userId
  }

  lemma {:induction false} EveryoneCovered(t: AliasTable, ms: seq<Membership>)
    requires Apart(t, ms)
    ensures forall m | m in ms :: Covers(FileAll(t, ms), t, m)
  {
    hide CanonicalId; hide AccountKey;
    if ms != [] {
      var rest, last := ms[..|ms| - 1], ms[|ms| - 1];
      assert ms == rest + [last];
      EveryoneCovered(t, rest);
      forall m | m in ms ensures Covers(FileAll(t, ms), t, m) {
        if AccountKey(CanonicalId(t, m), m.userId) != AccountKey(CanonicalId(t, last), last.userId) {
          assert m in rest;
        }
      }
    }
  }

  /** The output holds an entry for the account of `m`. */
  ghost predicate Kept(ms: seq<Membership>, m: Membership) {
    exists o :: o in Deduped(ms) && o.serverId == CanonicalId(Aliases(ms), m) && o.userId == m.userId
  }

  /** An entry of the output is the one filed under its own key. */
  lemma {:induction false} OutputEntry(ms: seq<Membership>, o: Membership)
    requires o in Deduped(ms)
    ensures var r := FileAll(Aliases(ms), ms);
      AccountKey(o.serverId, o.userId) in r.entries && r.entries[AccountKey(o.serverId, o.userId)] == o
  {
    hide AccountKey;
    var r := FileAll(Aliases(ms), ms);
    FileAllKeyed(Aliases(ms), ms);
    var i :| 0 <= i < |Deduped(ms)| && Deduped(ms)[i] == o;
    assert r.entries[r.order[i]] == o;
  }

  lemma {:induction false} CoveredKept(ms: seq<Membership>, m: Membership)
    requires Covers(FileAll(Aliases(ms), ms), Aliases(ms), m)
    ensures Kept(ms, m)
  {
    hide CanonicalId; hide AccountKey;
    var t := Aliases(ms);
    FileAllKeyed(t, ms);
    var r := FileAll(t, ms);
    var key := AccountKey(CanonicalId(t, m), m.userId);
    assert key in Elements(r.order);
    var i :| 0 <= i < |r.order| && r.order[i] == key;
    assert Deduped(ms)[i] == r.entries[key];
  }

  /** EVERY ACCOUNT IS KEPT, under its canonical server ID, if and only if no two accounts of the list
      share an account key. */
  lemma EveryAccountKept(ms: seq<Membership>)
    ensures (forall m | m in ms :: Kept(ms, m)) <==> KeyApart(ms)
  {
    hide CanonicalId; hide AccountKey; hide Deduped;
    var t := Aliases(ms);
    if KeyApart(ms) {
      EveryoneCovered(t, ms);
      forall m | m in ms ensures Kept(ms, m) {
        CoveredKept(ms, m);
      }
    }
    if forall m | m in ms :: Kept(ms, m) {
      forall m, n | m in ms && n in ms
        && AccountKey(CanonicalId(t, m), m.userId) == AccountKey(CanonicalId(t, n), n.userId)
        ensures CanonicalId(t, m) == CanonicalId(t, n) && m.userId == n.userId
      {
        assert Kept(ms, m) && Kept(ms, n);
        var o :| o in Deduped(ms) && o.serverId == CanonicalId(t, m) && o.userId == m.userId;
        var q :| q in Deduped(ms) && q.serverId == CanonicalId(t, n) && q.userId == n.userId;
        OutputEntry(ms, o);
        OutputEntry(ms, q);
      }
    }
  }

  /** Server IDs never contain the separator of the account key. */
  predicate SeparableIds(ms: seq<Membership>) {
    forall m | m in ms :: '\0' !in m.serverId
  }

  lemma {:induction false} CanonicalIdSeparable(ms: seq<Membership>, m: Membership)
    requires SeparableIds(ms) && '\0' !in m.serverId
    ensures '\0' !in CanonicalId(Aliases(ms), m)
    ensures forall a | a in Aliases(ms).canonical :: '\0' !in Aliases(ms).canonical[a]
  {
    if ms != [] {
      assert forall n | n in ms[..|ms| - 1] :: n in ms;
      CanonicalIdSeparable(ms[..|ms| - 1], m);
    }
  }

  /** Without a NUL in a server ID no two accounts share a key. */
  lemma SeparableApart(ms: seq<Membership>)
    requires SeparableIds(ms)
    ensures KeyApart(ms)
  {
    hide CanonicalId;
    var t := Aliases(ms);
    forall m, n | m in ms && n in ms
      && AccountKey(CanonicalId(t, m), m.userId) == AccountKey(CanonicalId(t, n), n.userId)
      ensures CanonicalId(t, m) == CanonicalId(t, n) && m.userId == n.userId
    {
      CanonicalIdSeparable(ms, m);
      CanonicalIdSeparable(ms, n);
      SplitAtFirst(CanonicalId(t, m), m.userId, CanonicalId(t, n), n.userId, '\0');
    }
  }

  /** An entry carries the details of the last membership filed under its key. */
  lemma {:induction false} LatestDetailsWin(t: AliasTable, ms: seq<Membership>, i: int)
    requires 0 <= i < |ms|
    requires forall j | i < j < |ms| ::
      AccountKey(CanonicalId(t, ms[j]), ms[j].userId) != AccountKey(CanonicalId(t, ms[i]), ms[i].userId)
    ensures var key := AccountKey(CanonicalId(t, ms[i]), ms[i].userId);
      && key in FileAll(t, ms).entries
      && var e := FileAll(t, ms).entries[key];
         e.serverId == CanonicalId(t, ms[i]) && e.userId == ms[i].userId
         && e.serverLabel == ms[i].serverLabel && e.username == ms[i].username
         && (ms[i].shorthand != "" ==> e.shorthand == ms[i].shorthand) && (ms[i].alias != "" ==> e.alias == ms[i].alias)
  {
    hide AccountKey; hide CanonicalId;
    if i < |ms| - 1 {
      LatestDetailsWin(t, ms[..|ms| - 1], i);
    }
  }

  /** With one, two accounts can share a key and the later one replaces the earlier. */
  lemma CollidingAccounts()
    ensures var a := Membership("a\0b", "A", "", "", "u", "c");
      var b := Membership("a", "B", "", "", "v", "b\0c");
      !exists o :: o in Deduped([a, b]) && o.serverId == a.serverId && o.userId == a.userId
  {
    var a := Membership("a\0b", "A", "", "", "u", "c");
    var b := Membership("a", "B", "", "", "v", "b\0c");
    var ms := [a, b];
    assert ms[..1] == [a] && [a][..0] == [];
    var t := Aliases(ms);
    assert Aliases([a]) == AddAlias(Aliases([]), a) == AliasTable(map[], {});
    assert t == AliasTable(map[], {});
    var key := AccountKey("a", "b\0c");
    assert key == AccountKey("a\0b", "c");
    assert FileAll(t, [a]).order == [key];
    assert FileAll(t, ms) == Registry([key], map[key := b]);
    FileAllKeyed(t, ms);
    assert Deduped(ms) == [b];
  }

  // ---- idempotence ----

  predicate Named(ms: seq<Membership>) {
    forall m | m in ms :: m.serverId != ""
  }

  /** No alias names two servers. */
  predicate Unambiguous(ms: seq<Membership>) {
    forall m, n | m in ms && n in ms && RealAlias(m) && RealAlias(n) && m.alias == n.alias :: m.serverId == n.serverId
  }

  /** Without ambiguity the table maps each real alias to its server. */
  lemma {:induction false} AliasTableIs(ms: seq<Membership>)
    requires Named(ms) && Unambiguous(ms)
    ensures var t := Aliases(ms);
      && t.ambiguous == {}
      && (forall a :: a in t.canonical <==> exists m :: m in ms && RealAlias(m) && m.alias == a)
      && (forall m | m in ms && RealAlias(m) :: m.alias in t.canonical && t.canonical[m.alias] == m.serverId)
  {
    if ms != [] {
      var rest, last := ms[..|ms| - 1], ms[|ms| - 1];
      assert ms == rest + [last];
      AliasTableIs(rest);
      if RealAlias(last) && last.alias in Aliases(rest).canonical {
        var m :| m in rest && RealAlias(m) && m.alias == last.alias;
        assert m in ms && last in ms;
      }
    }
  }

  /** What every filed entry satisfies: its alias names it, and it has one if its server ID is itself
      an alias. */
  predicate Settled(t: AliasTable, e: Membership) {
    && e.serverId != ""
    && (RealAlias(e) ==> e.alias in t.canonical && t.canonical[e.alias] == e.serverId)
    && (e.serverId in t.canonical ==> RealAlias(e))
  }

  lemma FiledSettled(t: AliasTable, previous: Membership, m: Membership)
    requires t.ambiguous == {} && m.serverId != "" &&
        (forall a | a in t.canonical :: t.canonical[a] != "" && t.canonical[a] != a)
    requires RealAlias(m) ==> m.alias in t.canonical && t.canonical[m.alias] == m.serverId
    requires previous == NOBODY || (Settled(t, previous) && previous.serverId == CanonicalId(t, m))
    ensures Settled(t, Merge(previous, m, CanonicalId(t, m)))
  {
  }

  lemma {:induction false} AllSettled(t: AliasTable, ms: seq<Membership>)
    requires t.ambiguous == {} && Named(ms) &&
        (forall a | a in t.canonical :: t.canonical[a] != "" && t.canonical[a] != a)
    requires forall m | m in ms && RealAlias(m) :: m.alias in t.canonical && t.canonical[m.alias] == m.serverId
    requires Apart(t, ms)
    ensures forall key | key in FileAll(t, ms).entries :: Settled(t, FileAll(t, ms).entries[key])
  {
    hide Settled; hide CanonicalId; hide AccountKey;
    if ms != [] {
      var rest, last := ms[..|ms| - 1], ms[|ms| - 1];
      assert ms == rest + [last];
      AllSettled(t, rest);
      var r := FileAll(t, rest);
      var key := AccountKey(CanonicalId(t, last), last.userId);
      if key in r.entries {
        var m := Filed(t, rest, key);
        assert CanonicalId(t, m) == CanonicalId(t, last);
        FiledSettled(t, r.entries[key], last);
      } else {
        FiledSettled(t, NOBODY, last);
      }
    }
  }

  /** An entry carries the account of a membership filed under its key. */
  lemma {:induction false} Filed(t: AliasTable, ms: seq<Membership>, key: string) returns (m: Membership)
    requires key in FileAll(t, ms).entries
    ensures m in ms && AccountKey(CanonicalId(t, m), m.userId) == key &&
        FileAll(t, ms).entries[key].serverId == CanonicalId(t, m)
  {
    hide CanonicalId; hide AccountKey;
    var rest, last := ms[..|ms| - 1], ms[|ms| - 1];
    assert ms == rest + [last];
    if AccountKey(CanonicalId(t, last), last.userId) == key {
      m := last;
    } else {
      m := Filed(t, rest, key);
    }
  }

  /** `r` holds exactly `os`, in this order. */
  predicate FiledAs(r: Registry, os: seq<Membership>) {
    && |r.order| == |os|
    && (forall i | 0 <= i < |os| :: r.order[i] == AccountKey(os[i].serverId, os[i].userId)
                                    && r.order[i] in r.entries && r.entries[r.order[i]] == os[i])
    && (forall key | key in r.entries :: key in r.order)
  }

  predicate DistinctKeys(os: seq<Membership>) {
    forall i, j | 0 <= i < j < |os| ::
        AccountKey(os[i].serverId, os[i].userId) != AccountKey(os[j].serverId, os[j].userId)
  }

  lemma FileNext(t: AliasTable, r: Registry, os: seq<Membership>, m: Membership)
    requires FiledAs(r, os) && DistinctKeys(os + [m]) && CanonicalId(t, m) == m.serverId
    ensures FiledAs(File(t, r, m), os + [m])
  {
    hide AccountKey, CanonicalId;
    var key := AccountKey(m.serverId, m.userId);
    var all := os + [m];
    forall i | 0 <= i < |os| ensures r.order[i] != key {
      assert all[i] == os[i] && all[|os|] == m;
    }
    assert key !in r.entries;
    assert Merge(NOBODY, m, m.serverId) == m;
  }

  /** Entries that stay where they are and have distinct keys are filed unchanged. */
  lemma {:induction false} FiledUnchanged(t: AliasTable, os: seq<Membership>)
    requires forall o | o in os :: CanonicalId(t, o) == o.serverId
    requires DistinctKeys(os)
    ensures FiledAs(FileAll(t, os), os)
  {
    hide AccountKey, CanonicalId, File;
    if os != [] {
      var rest, last := os[..|os| - 1], os[|os| - 1];
      assert os == rest + [last];
      FiledUnchanged(t, rest);
      FileNext(t, FileAll(t, rest), rest, last);
    }
  }

  lemma {:induction false} AliasTargets(ms: seq<Membership>)
    requires Named(ms)
    ensures forall a | a in Aliases(ms).canonical :: Aliases(ms).canonical[a] != "" && Aliases(ms).canonical[a] != a
  {
    if ms != [] {
      assert forall m | m in ms[..|ms| - 1] :: m in ms;
      AliasTargets(ms[..|ms| - 1]);
    }
  }

  /** IDEMPOTENCE. When no alias names two servers a second pass changes nothing, even through chains
      of aliases: its alias table is contained in the first one. */
  lemma DedupeTwice(ms: seq<Membership>)
    requires Named(ms) && Unambiguous(ms) && KeyApart(ms)
    ensures Deduped(Deduped(ms)) == Deduped(ms)
  {
    hide AccountKey; hide CanonicalId;
    var t := Aliases(ms);
    var os := Deduped(ms);
    AliasTableIs(ms);
    AliasTargets(ms);
    AllSettled(t, ms);
    forall o | o in os ensures Settled(t, o) {
      OutputEntry(ms, o);
    }
    SecondPassStays(t, os);
    OutputKeysDistinct(ms);
    FiledUnchanged(Aliases(os), os);
    FiledAsValues(Aliases(os), os);
  }

  lemma OutputKeysDistinct(ms: seq<Membership>)
    ensures DistinctKeys(Deduped(ms))
  {
    hide AccountKey; hide CanonicalId;
    FileAllKeyed(Aliases(ms), ms);
    var os, r := Deduped(ms), FileAll(Aliases(ms), ms);
    forall i | 0 <= i < |os| ensures r.order[i] == AccountKey(os[i].serverId, os[i].userId) {
      assert os[i] == r.entries[r.order[i]];
    }
  }

  lemma {:induction false} FiledAsValues(t: AliasTable, os: seq<Membership>)
    requires t == Aliases(os) && FiledAs(FileAll(t, os), os)
    ensures Deduped(os) == os
  {
    FileAllKeyed(t, os);
  }

  lemma {:induction false} SecondPassStays(t: AliasTable, os: seq<Membership>)
    requires forall o | o in os :: Settled(t, o)
    ensures forall o | o in os :: CanonicalId(Aliases(os), o) == o.serverId
  {
    AliasTableIs(os);
  }

  // ---- exactly when a pass changes nothing ----

  /** Some membership gives `a` as an alias of server `id`. */
  ghost predicate AliasOf(ms: seq<Membership>, a: string, id: string) {
    exists m :: m in ms && RealAlias(m) && m.alias == a && m.serverId == id
  }

  lemma AliasOfMore(rest: seq<Membership>, last: Membership, a: string, id: string)
    ensures AliasOf(rest + [last], a, id)
        <==> AliasOf(rest, a, id) || (RealAlias(last) && last.alias == a && last.serverId == id)
  {
    if AliasOf(rest, a, id) {
      var m :| m in rest && RealAlias(m) && m.alias == a && m.serverId == id;
      assert m in rest + [last];
    }
    assert last in rest + [last];
  }

  ghost predicate TableOf(ms: seq<Membership>, t: AliasTable, a: string) {
    && (a in t.canonical ==> AliasOf(ms, a, t.canonical[a]) && t.canonical[a] != "")
    && (forall id | AliasOf(ms, a, id) :: a in t.canonical && (id == t.canonical[a] || a in t.ambiguous))
    && (a in t.ambiguous ==> a in t.canonical && exists id :: AliasOf(ms, a, id) && id != t.canonical[a])
  }

  /** The table holds the server an alias was first given for, and marks it ambiguous if and only if it
      was given for another one too. */
  lemma {:induction false} TableExactly(ms: seq<Membership>, a: string)
    requires Named(ms)
    ensures TableOf(ms, Aliases(ms), a)
  {
    hide AliasOf;
    if ms != [] {
      var rest, last := ms[..|ms| - 1], ms[|ms| - 1];
      assert ms == rest + [last] && last in ms;
      TableExactly(rest, a);
      var t, u := Aliases(rest), Aliases(ms);
      assert u == AddAlias(t, last);
      AliasOfMore(rest, last, a, last.serverId);
      if a in t.canonical { AliasOfMore(rest, last, a, t.canonical[a]); }
      if a in t.ambiguous {
        var id :| AliasOf(rest, a, id) && id != t.canonical[a];
        AliasOfMore(rest, last, a, id);
      }
      forall id | AliasOf(ms, a, id) ensures a in u.canonical && (id == u.canonical[a] || a in u.ambiguous) {
        AliasOfMore(rest, last, a, id);
      }
    } else {
      assert forall id :: !AliasOf([], a, id) by { NoAliases(a); }
    }
  }

  lemma NoAliases(a: string)
    ensures forall id :: !AliasOf([], a, id)
  {
  }

  /** An entry without an alias of its own, whose server ID is an alias of exactly one server. */
  ghost predicate Displaced(os: seq<Membership>, o: Membership) {
    && !RealAlias(o)
    && exists id :: AliasOf(os, o.serverId, id) && forall other | AliasOf(os, o.serverId, other) :: other == id
  }

  lemma {:induction false} MovedExactly(os: seq<Membership>, o: Membership)
    requires Named(os)
    ensures CanonicalId(Aliases(os), o) != o.serverId <==> Displaced(os, o)
  {
    var t, a := Aliases(os), o.serverId;
    TableExactly(os, a);
    if a in t.canonical {
      AliasNotSelf(os, a, t.canonical[a]);
      hide AliasOf;
      if a !in t.ambiguous {
        assert forall other | AliasOf(os, a, other) :: other == t.canonical[a];
      }
    }
  }

  lemma AliasNotSelf(ms: seq<Membership>, a: string, id: string)
    requires AliasOf(ms, a, id)
    ensures id != a
  {
  }

  /** If every membership opens an entry of its own, entry by entry they are filed where they belong. */
  lemma {:induction false} OneEach(t: AliasTable, os: seq<Membership>)
    ensures var r := FileAll(t, os);
      && |r.order| <= |os|
      && (|r.order| == |os| ==> forall i | 0 <= i < |os| ::
            r.order[i] in r.entries && r.entries[r.order[i]].serverId == CanonicalId(t, os[i]))
  {
    hide AccountKey; hide CanonicalId;
    if os != [] {
      OneEach(t, os[..|os| - 1]);
      FileAllKeyed(t, os[..|os| - 1]);
    }
  }

  /** A list is left alone if and only if its account keys are distinct and no entry is displaced. */
  lemma UnchangedExactly(os: seq<Membership>)
    requires Named(os)
    ensures Deduped(os) == os <==> DistinctKeys(os) && forall o | o in os :: !Displaced(os, o)
  {
    hide AccountKey; hide CanonicalId; hide Displaced;
    var t := Aliases(os);
    if DistinctKeys(os) && forall o | o in os :: !Displaced(os, o) {
      forall o | o in os ensures CanonicalId(t, o) == o.serverId { MovedExactly(os, o); }
      FiledUnchanged(t, os);
      FiledAsValues(t, os);
    }
    if Deduped(os) == os {
      OneEach(t, os);
      OutputKeysDistinct(os);
      forall o | o in os ensures !Displaced(os, o) {
        var i :| 0 <= i < |os| && os[i] == o;
        assert Deduped(os)[i].serverId == CanonicalId(t, os[i]);
        MovedExactly(os, o);
      }
    }
  }

  /** A second pass changes nothing if and only if the first leaves no entry displaced. */
  lemma DedupeTwiceExactly(ms: seq<Membership>)
    requires Named(ms)
    ensures Deduped(Deduped(ms)) == Deduped(ms) <==> forall o | o in Deduped(ms) :: !Displaced(Deduped(ms), o)
  {
    hide AccountKey; hide CanonicalId; hide Displaced; hide Deduped;
    OutputKeysDistinct(ms);
    forall o | o in Deduped(ms) ensures o.serverId != "" {
      OutputEntry(ms, o);
      var m := Filed(Aliases(ms), ms, AccountKey(o.serverId, o.userId));
      CanonicalIdNamed(ms, m);
    }
    UnchangedExactly(Deduped(ms));
  }

  lemma {:induction false} CanonicalIdNamed(ms: seq<Membership>, m: Membership)
    requires Named(ms) && m in ms
    ensures CanonicalId(Aliases(ms), m) != ""
  {
  }

  // ---- the same, read off the input ----

  function KeyFor(t: AliasTable, m: Membership): string {
    AccountKey(CanonicalId(t, m), m.userId)
  }

  /** The server of the last membership filed under a key. */
  function ServerFor(t: AliasTable, ms: seq<Membership>, key: string): string {
    if ms == [] then "" else
      var last := ms[|ms| - 1];
      if KeyFor(t, last) == key then CanonicalId(t, last) else ServerFor(t, ms[..|ms| - 1], key)
  }

  /** The last alias given under a key or, before any is given, the server ID that was first replaced. */
  function AliasFor(t: AliasTable, ms: seq<Membership>, key: string): string {
    if ms == [] then "" else
      var last, before := ms[|ms| - 1], AliasFor(t, ms[..|ms| - 1], key);
      if KeyFor(t, last) == key
      then Or(last.alias, Or(before, if CanonicalId(t, last) != last.serverId then last.serverId else "")) else before
  }

  lemma {:induction false} EntryFor(t: AliasTable, ms: seq<Membership>, key: string)
    ensures key in FileAll(t, ms).entries <==> exists m :: m in ms && KeyFor(t, m) == key
    ensures key in FileAll(t, ms).entries ==>
      var e := FileAll(t, ms).entries[key]; e.serverId == ServerFor(t, ms, key) && e.alias == AliasFor(t, ms, key)
    ensures key !in FileAll(t, ms).entries ==> AliasFor(t, ms, key) == ""
  {
    hide CanonicalId, AccountKey;
    if ms != [] {
      var rest, last := ms[..|ms| - 1], ms[|ms| - 1];
      assert ms == rest + [last];
      assert last in ms && forall m | m in rest :: m in ms;
      EntryFor(t, rest, key);
      if key in FileAll(t, rest).entries {
        var m :| m in rest && KeyFor(t, m) == key;
        assert m in ms;
      }
    }
  }

  /** Account by account: an alias that will stand for a server. */
  ghost predicate WillName(ms: seq<Membership>, a: string, id: string) {
    var t := Aliases(ms);
    exists m :: m in ms && var key := KeyFor(t, m);
      AliasFor(t, ms, key) == a != "" && ServerFor(t, ms, key) == id != a
  }

  /** The account of `m` will have no alias of its own, and its server will be named by exactly one alias. */
  ghost predicate MovesAgain(ms: seq<Membership>, m: Membership) {
    var t := Aliases(ms);
    var key := KeyFor(t, m);
    var a, id := AliasFor(t, ms, key), ServerFor(t, ms, key);
    && (a == "" || a == id)
    && exists other :: WillName(ms, id, other) && forall third | WillName(ms, id, third) :: third == other
  }

  lemma {:induction false} OutputFor(ms: seq<Membership>, m: Membership) returns (o: Membership)
    requires m in ms
    ensures o in Deduped(ms)
    ensures var t := Aliases(ms); var key := KeyFor(t, m);
      o.serverId == ServerFor(t, ms, key) && o.alias == AliasFor(t, ms, key)
  {
    hide CanonicalId, AccountKey;
    var t := Aliases(ms);
    var key := KeyFor(t, m);
    EntryFor(t, ms, key);
    FileAllKeyed(t, ms);
    var r := FileAll(t, ms);
    assert key in Elements(r.order);
    var i :| 0 <= i < |r.order| && r.order[i] == key;
    o := Deduped(ms)[i];
  }

  lemma {:induction false} InputFor(ms: seq<Membership>, o: Membership) returns (m: Membership)
    requires o in Deduped(ms)
    ensures m in ms
    ensures var t := Aliases(ms); var key := KeyFor(t, m);
      o.serverId == ServerFor(t, ms, key) && o.alias == AliasFor(t, ms, key)
  {
    hide CanonicalId, AccountKey;
    var t := Aliases(ms);
    FileAllKeyed(t, ms);
    var r := FileAll(t, ms);
    var i :| 0 <= i < |r.order| && Deduped(ms)[i] == o;
    var key := r.order[i];
    EntryFor(t, ms, key);
    m :| m in ms && KeyFor(t, m) == key;
  }

  lemma {:induction false} WillNameIs(ms: seq<Membership>, a: string, id: string)
    ensures WillName(ms, a, id) <==> AliasOf(Deduped(ms), a, id)
  {
    hide KeyFor, Deduped, Aliases;
    if WillName(ms, a, id) {
      var m :| m in ms && var key := KeyFor(Aliases(ms), m);
        AliasFor(Aliases(ms), ms, key) == a != "" && ServerFor(Aliases(ms), ms, key) == id != a;
      var o := OutputFor(ms, m);
    }
    if AliasOf(Deduped(ms), a, id) {
      var o :| o in Deduped(ms) && RealAlias(o) && o.alias == a && o.serverId == id;
      var m := InputFor(ms, o);
    }
  }

  /** IDEMPOTENCE, READ OFF THE INPUT. A second pass changes nothing if and only if no account of the list
      is left without an alias on a server that exactly one alias will name. */
  lemma {:induction false} IdempotentExactly(ms: seq<Membership>)
    requires Named(ms)
    ensures Deduped(Deduped(ms)) == Deduped(ms) <==> forall m | m in ms :: !MovesAgain(ms, m)
  {
    DedupeTwiceExactly(ms);
    hide KeyFor, Deduped, Aliases, WillName, AliasOf;
    forall a, id ensures WillName(ms, a, id) <==> AliasOf(Deduped(ms), a, id) {
      WillNameIs(ms, a, id);
    }
    if m :| m in ms && MovesAgain(ms, m) {
      var o := OutputFor(ms, m);
      assert Displaced(Deduped(ms), o);
    }
    if o :| o in Deduped(ms) && Displaced(Deduped(ms), o) {
      var m := InputFor(ms, o);
      assert MovesAgain(ms, m);
    }
  }

  /** With an ambiguous alias a second pass can still move an entry. */
  lemma AmbiguousNotIdempotent()
    ensures exists ms :: Named(ms) && SeparableIds(ms) && Deduped(Deduped(ms)) != Deduped(ms)
  {
    var a := Membership("1", "L", "", "x", "n", "u");
    var b := Membership("2", "L", "", "x", "n", "v");
    var c := Membership("2", "L", "", "y", "n", "v");
    var d := Membership("x", "L", "", "", "n", "w");
    var ms := [a, b, c, d];
    AmbiguousFirstPass(a, b, c, d);
    AmbiguousSecondPass(a, c, d);
    assert Deduped([a, c, d])[2] != d;
  }

  lemma AmbiguousFirstPass(a: Membership, b: Membership, c: Membership, d: Membership)
    requires a == Membership("1", "L", "", "x", "n", "u") && b == Membership("2", "L", "", "x", "n", "v")
    requires c == Membership("2", "L", "", "y", "n", "v") && d == Membership("x", "L", "", "", "n", "w")
    ensures Deduped([a, b, c, d]) == [a, c, d]
  {
    var ms := [a, b, c, d];
    assert ms[..3] == [a, b, c] && [a, b, c][..2] == [a, b] && [a, b][..1] == [a] && [a][..0] == [];
    var t := AliasTable(map["x" := "1", "y" := "2"], {"x"});
    hide Aliases, CanonicalId;
    AmbiguousTable(a, b, c, d);
    assert CanonicalId(t, a) == "1" && CanonicalId(t, b) == CanonicalId(t, c) == "2" && CanonicalId(t, d) == "x" by {
      AmbiguousIds(a, b, c, d);
    }
    var ka, kb, kd := AccountKey("1", "u"), AccountKey("2", "v"), AccountKey("x", "w");
    assert ka[0] == '1' && kb[0] == '2' && kd[0] == 'x';
    hide AccountKey;
    assert FileAll(t, [a]) == File(t, FileAll(t, []), a) == Registry([ka], map[ka := a]);
    assert FileAll(t, [a, b]) == File(t, FileAll(t, [a]), b) == Registry([ka, kb], map[ka := a, kb := b]);
    assert FileAll(t, [a, b, c]) == File(t, FileAll(t, [a, b]), c) == Registry([ka, kb], map[ka := a, kb := c]);
    assert FileAll(t, ms) == File(t, FileAll(t, [a, b, c]), d) ==
        Registry([ka, kb, kd], map[ka := a, kb := c, kd := d]);
    FileAllKeyed(t, ms);
  }

  lemma AmbiguousTable(a: Membership, b: Membership, c: Membership, d: Membership)
    requires a == Membership("1", "L", "", "x", "n", "u") && b == Membership("2", "L", "", "x", "n", "v")
    requires c == Membership("2", "L", "", "y", "n", "v") && d == Membership("x", "L", "", "", "n", "w")
    ensures Aliases([a, b, c, d]) == AliasTable(map["x" := "1", "y" := "2"], {"x"})
  {
    var ms := [a, b, c, d];
    assert ms[..3] == [a, b, c] && [a, b, c][..2] == [a, b] && [a, b][..1] == [a] && [a][..0] == [];
    assert Aliases([a]) == AddAlias(Aliases([]), a) == AliasTable(map["x" := "1"], {});
    assert Aliases([a, b]) == AddAlias(Aliases([a]), b) == AliasTable(map["x" := "1"], {"x"});
    assert Aliases([a, b, c]) == AddAlias(Aliases([a, b]), c) == AliasTable(map["x" := "1", "y" := "2"], {"x"});
    assert Aliases(ms) == AddAlias(Aliases([a, b, c]), d);
  }

  lemma AmbiguousIds(a: Membership, b: Membership, c: Membership, d: Membership)
    requires a == Membership("1", "L", "", "x", "n", "u") && b == Membership("2", "L", "", "x", "n", "v")
    requires c == Membership("2", "L", "", "y", "n", "v") && d == Membership("x", "L", "", "", "n", "w")
    ensures var t := AliasTable(map["x" := "1", "y" := "2"], {"x"});
      CanonicalId(t, a) == "1" && CanonicalId(t, b) == CanonicalId(t, c) == "2" && CanonicalId(t, d) == "x"
  {
  }

  lemma AmbiguousSecondPass(a: Membership, c: Membership, d: Membership)
    requires a == Membership("1", "L", "", "x", "n", "u")
    requires c == Membership("2", "L", "", "y", "n", "v") && d == Membership("x", "L", "", "", "n", "w")
    ensures |Deduped([a, c, d])| == 3 && Deduped([a, c, d])[2].serverId == "1"
  {
    var ms := [a, c, d];
    assert ms[..2] == [a, c] && [a, c][..1] == [a] && [a][..0] == [];
    assert Aliases([a]) == AddAlias(Aliases([]), a) == AliasTable(map["x" := "1"], {});
    assert Aliases([a, c]) == AddAlias(Aliases([a]), c) == AliasTable(map["x" := "1", "y" := "2"], {});
    var t := Aliases(ms);
    assert t == AddAlias(Aliases([a, c]), d);
    assert t == AliasTable(map["x" := "1", "y" := "2"], {});
    var ka, kc, kd := AccountKey("1", "u"), AccountKey("2", "v"), AccountKey("1", "w");
    assert ka[0] == '1' && kc[0] == '2' && ka[2] == 'u' && kd[2] == 'w';
    assert FileAll(t, [a]) == Registry([ka], map[ka := a]);
    assert FileAll(t, [a, c]) == Registry([ka, kc], map[ka := a, kc := c]);
    assert CanonicalId(t, d) == "1";
    assert FileAll(t, ms).order == [ka, kc, kd];
    FileAllKeyed(t, ms);
  }
}
