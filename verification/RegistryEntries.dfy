/** What the entries of a deduplicated registry are, read off the list of memberships. */
module RegistryEntries {
  import opened ServerRegistry

  // ---- under which server a membership is filed ----

  /** The membership gives its server this alias. */
  predicate Gives(m: Membership, alias: string) {
    alias != "" && m.alias == alias && m.serverId != alias
  }

  predicate Apart(ms: seq<Membership>, alias: string, i: int, j: int) {
    && 0 <= i < j < |ms| && Gives(ms[i], alias) && Gives(ms[j], alias)
    && ms[i].serverId != "" && ms[j].serverId != ms[i].serverId
  }

  /** Two memberships give the alias to different servers. */
  ghost predicate TwoServers(ms: seq<Membership>, alias: string) {
    exists i, j :: Apart(ms, alias, i, j)
  }

  /** The first membership that gives the alias to a named server. */
  ghost predicate FirstGiven(ms: seq<Membership>, alias: string, i: int) {
    && 0 <= i < |ms| && Gives(ms[i], alias) && ms[i].serverId != ""
    && forall j | 0 <= j < i :: !(Gives(ms[j], alias) && ms[j].serverId != "")
  }

  ghost predicate NeverGiven(ms: seq<Membership>, alias: string) {
    forall i | 0 <= i < |ms| :: !(Gives(ms[i], alias) && ms[i].serverId != "")
  }

  lemma {:induction false} GivenOfMore(ms: seq<Membership>, m: Membership, alias: string)
    ensures forall i :: FirstGiven(ms + [m], alias, i) <==>
        FirstGiven(ms, alias, i) || (i == |ms| && NeverGiven(ms, alias) && Gives(m, alias) && m.serverId != "")
    ensures NeverGiven(ms + [m], alias) <==> NeverGiven(ms, alias) && !(Gives(m, alias) && m.serverId != "")
    ensures NeverGiven(ms, alias) <==> forall i :: !FirstGiven(ms, alias, i)
  {
    var more := ms + [m];
    hide Gives;
    assert more[|ms|] == m && forall j | 0 <= j < |ms| :: more[j] == ms[j];
    SomeFirst(ms, alias);
  }

  lemma {:induction false} SomeFirst(ms: seq<Membership>, alias: string)
    ensures NeverGiven(ms, alias) || exists i :: FirstGiven(ms, alias, i)
  {
    hide Gives;
    if ms != [] {
      var rest := ms[..|ms| - 1];
      SomeFirst(rest, alias);
      assert forall j | 0 <= j < |rest| :: rest[j] == ms[j];
      if i :| FirstGiven(rest, alias, i) {
        assert FirstGiven(ms, alias, i);
      } else if Gives(ms[|ms| - 1], alias) && ms[|ms| - 1].serverId != "" {
        assert FirstGiven(ms, alias, |ms| - 1);
      }
    }
  }

  lemma {:induction false} TwoServersOfMore(ms: seq<Membership>, m: Membership, alias: string, first: int)
    requires FirstGiven(ms, alias, first)
    ensures TwoServers(ms + [m], alias)
       <==> TwoServers(ms, alias) || (Gives(m, alias) && m.serverId != ms[first].serverId)
  {
    var more := ms + [m];
    hide Gives;
    assert more[|ms|] == m && forall j | 0 <= j < |ms| :: more[j] == ms[j];
    if Gives(m, alias) && m.serverId != ms[first].serverId {
      assert Apart(more, alias, first, |ms|);
    }
    if i, j :| Apart(ms, alias, i, j) {
      assert Apart(more, alias, i, j);
    }
    if i, j :| Apart(more, alias, i, j) {
      assert i >= first;
      if j < |ms| {
        assert Apart(ms, alias, i, j);
      } else if m.serverId == ms[first].serverId {
        assert Apart(ms, alias, first, i);
      }
    }
  }

  /** The table of aliases, read off the list: ambiguous are those given to two servers, and the first one
      named stays. */
  lemma {:induction false} TableExactly(ms: seq<Membership>, alias: string)
    ensures alias in Aliases(ms).ambiguous <==> TwoServers(ms, alias)
    ensures forall i | FirstGiven(ms, alias, i) :: Find(Aliases(ms).canonical, alias) == ms[i].serverId
    ensures NeverGiven(ms, alias) ==> Find(Aliases(ms).canonical, alias) == ""
  {
    if ms == [] {
    } else {
      var rest, m := ms[..|ms| - 1], ms[|ms| - 1];
      assert ms == rest + [m];
      TableExactly(rest, alias);
      GivenOfMore(rest, m, alias);
      assert forall i | FirstGiven(rest, alias, i) :: ms[i] == rest[i];
      if i :| FirstGiven(rest, alias, i) {
        TwoServersOfMore(rest, m, alias, i);
      } else {
        NotTwoServers(ms, alias);
        NotTwoServers(rest, alias);
      }
      AliasAdded(Aliases(rest), m, alias);
      hide Aliases, Gives, FirstGiven, NeverGiven, TwoServers, Find;
    }
  }

  lemma {:induction false} AliasAdded(t: AliasTable, m: Membership, alias: string)
    ensures var u := AddAlias(t, m);
      if !Gives(m, alias) then
        (alias in u.ambiguous <==> alias in t.ambiguous) && Find(u.canonical, alias) == Find(t.canonical, alias)
      else if Find(t.canonical, alias) == "" then
        (alias in u.ambiguous <==> alias in t.ambiguous) && Find(u.canonical, alias) == m.serverId
      else
        (alias in u.ambiguous <==> alias in t.ambiguous || m.serverId != Find(t.canonical, alias))
        && Find(u.canonical, alias) == Find(t.canonical, alias)
  {
  }

  lemma {:induction false} NotTwoServers(ms: seq<Membership>, alias: string)
    requires forall i | 0 <= i < |ms| - 1 :: !(Gives(ms[i], alias) && ms[i].serverId != "")
    ensures !TwoServers(ms, alias)
  {
    hide Gives;
  }

  /** FILED UNDER. A membership with an alias of its own, or whose server ID is an alias of two servers, is
      filed under its own ID; another one under the first server that was given its ID as an alias, if
      there is one. */
  lemma {:induction false} CanonicalExactly(ms: seq<Membership>, m: Membership)
    ensures var id := CanonicalId(Aliases(ms), m);
      if (m.alias != "" && m.alias != m.serverId) || TwoServers(ms, m.serverId) then id == m.serverId
      else (forall i | FirstGiven(ms, m.serverId, i) :: id == ms[i].serverId)
           && (NeverGiven(ms, m.serverId) ==> id == m.serverId)
  {
    TableExactly(ms, m.serverId);
    hide Aliases, TwoServers, NeverGiven, Gives;
  }

  // ---- what an entry carries ----

  predicate FiledAs(t: AliasTable, m: Membership, key: string) {
    AccountKey(CanonicalId(t, m), m.userId) == key
  }

  /** The last membership of the account with a shorthand. */
  predicate LastShorthand(t: AliasTable, ms: seq<Membership>, key: string, i: int) {
    && 0 <= i < |ms| && FiledAs(t, ms[i], key) && ms[i].shorthand != ""
    && forall j | i < j < |ms| :: !(FiledAs(t, ms[j], key) && ms[j].shorthand != "")
  }

  predicate NoShorthand(t: AliasTable, ms: seq<Membership>, key: string) {
    forall j | 0 <= j < |ms| :: !(FiledAs(t, ms[j], key) && ms[j].shorthand != "")
  }

  predicate LastAlias(t: AliasTable, ms: seq<Membership>, key: string, i: int) {
    && 0 <= i < |ms| && FiledAs(t, ms[i], key) && ms[i].alias != ""
    && forall j | i < j < |ms| :: !(FiledAs(t, ms[j], key) && ms[j].alias != "")
  }

  predicate NoAlias(t: AliasTable, ms: seq<Membership>, key: string) {
    forall j | 0 <= j < |ms| :: !(FiledAs(t, ms[j], key) && ms[j].alias != "")
  }

  /** The membership is filed under another ID than its own. */
  predicate Moved(t: AliasTable, m: Membership, key: string) {
    FiledAs(t, m, key) && m.serverId != "" && CanonicalId(t, m) != m.serverId
  }

  predicate FirstMoved(t: AliasTable, ms: seq<Membership>, key: string, i: int) {
    0 <= i < |ms| && Moved(t, ms[i], key) && forall j | 0 <= j < i :: !Moved(t, ms[j], key)
  }

  predicate NoneMoved(t: AliasTable, ms: seq<Membership>, key: string) {
    forall j | 0 <= j < |ms| :: !Moved(t, ms[j], key)
  }

  lemma {:induction false} TextsOfMore(t: AliasTable, ms: seq<Membership>, m: Membership, key: string)
    ensures var short, named := FiledAs(t, m, key) && m.shorthand != "", FiledAs(t, m, key) && m.alias != "";
      && (forall i ::
            LastShorthand(t, ms + [m], key, i) <==> if short then i == |ms| else LastShorthand(t, ms, key, i))
      && (NoShorthand(t, ms + [m], key) <==> NoShorthand(t, ms, key) && !short)
      && (forall i :: LastAlias(t, ms + [m], key, i) <==> if named then i == |ms| else LastAlias(t, ms, key, i))
      && (NoAlias(t, ms + [m], key) <==> NoAlias(t, ms, key) && !named)
  {
    hide FiledAs;
    var more := ms + [m];
    assert more[|ms|] == m && forall j | 0 <= j < |ms| :: more[j] == ms[j];
  }

  lemma {:induction false} MovedOfMore(t: AliasTable, ms: seq<Membership>, m: Membership, key: string)
    ensures forall i :: FirstMoved(t, ms + [m], key, i) <==>
        FirstMoved(t, ms, key, i) || (i == |ms| && NoneMoved(t, ms, key) && Moved(t, m, key))
    ensures NoneMoved(t, ms + [m], key) <==> NoneMoved(t, ms, key) && !Moved(t, m, key)
  {
    hide Moved;
    var more := ms + [m];
    assert more[|ms|] == m && forall j | 0 <= j < |ms| :: more[j] == ms[j];
  }

  lemma {:induction false} SomeMoved(t: AliasTable, ms: seq<Membership>, key: string)
    ensures NoneMoved(t, ms, key) || exists i :: FirstMoved(t, ms, key, i)
  {
    hide Moved;
    if ms != [] {
      var rest, m := ms[..|ms| - 1], ms[|ms| - 1];
      assert ms == rest + [m];
      SomeMoved(t, rest, key);
      MovedOfMore(t, rest, m, key);
      if i :| FirstMoved(t, rest, key, i) {
        assert FirstMoved(t, ms, key, i);
      } else {
        assert FirstMoved(t, ms, key, |rest|) || NoneMoved(t, ms, key);
      }
    }
  }

  function EntryOf(t: AliasTable, ms: seq<Membership>, key: string): Membership {
    var entries := FileAll(t, ms).entries;
    if key in entries then entries[key] else NOBODY
  }

  lemma {:induction false} EntryOfMore(t: AliasTable, ms: seq<Membership>, m: Membership, key: string)
    ensures var e, f := EntryOf(t, ms, key), EntryOf(t, ms + [m], key);
      if FiledAs(t, m, key) then
        && f.shorthand == (if m.shorthand != "" then m.shorthand else e.shorthand)
        && f.alias == (if m.alias != "" then m.alias else if e.alias != "" then e.alias
                       else if Moved(t, m, key) then m.serverId else "")
      else f == e
  {
    hide AccountKey, CanonicalId;
    assert (ms + [m])[..|ms|] == ms;
  }

  /** The shorthand is the last one given for the account. The alias is the last one given, or without any
      the own ID of the first membership that was filed under another server. */
  ghost predicate Carries(t: AliasTable, ms: seq<Membership>, key: string, e: Membership) {
    && (forall i | LastShorthand(t, ms, key, i) :: e.shorthand == ms[i].shorthand)
    && (NoShorthand(t, ms, key) ==> e.shorthand == "")
    && (forall i | LastAlias(t, ms, key, i) :: e.alias == ms[i].alias)
    && (NoAlias(t, ms, key) ==> forall i | FirstMoved(t, ms, key, i) :: e.alias == ms[i].serverId)
    && (NoAlias(t, ms, key) && NoneMoved(t, ms, key) ==> e.alias == "")
  }

  lemma {:induction false} EntryCarries(t: AliasTable, ms: seq<Membership>, key: string)
    ensures Carries(t, ms, key, EntryOf(t, ms, key))
  {
    if ms != [] {
      var rest, m := ms[..|ms| - 1], ms[|ms| - 1];
      assert ms == rest + [m];
      EntryCarries(t, rest, key);
      EntryOfMore(t, rest, m, key);
      TextsOfMore(t, rest, m, key);
      MovedOfMore(t, rest, m, key);
      SomeMoved(t, rest, key);
      SameEntries(t, rest, m, key);
      hide LastShorthand, NoShorthand, LastAlias, NoAlias, FirstMoved, NoneMoved, EntryOf, FiledAs, Moved;
    }
  }

  lemma {:induction false} SameEntries(t: AliasTable, rest: seq<Membership>, m: Membership, key: string)
    ensures forall i | LastShorthand(t, rest, key, i) || LastAlias(t, rest, key, i) || FirstMoved(t, rest, key, i) ::
        0 <= i < |rest| && (rest + [m])[i] == rest[i]
    ensures (rest + [m])[|rest|] == m
    ensures forall i | FirstMoved(t, rest, key, i) :: rest[i].serverId != ""
    ensures Moved(t, m, key) ==> FiledAs(t, m, key)
  {
    hide FiledAs;
  }

  /** WHAT AN ENTRY CARRIES, of every entry of the deduplicated list. */
  lemma {:induction false} OutputCarries(ms: seq<Membership>, o: Membership)
    requires o in Deduped(ms)
    ensures Carries(Aliases(ms), ms, AccountKey(o.serverId, o.userId), o)
  {
    hide Carries, Deduped, AccountKey;
    OutputEntry(ms, o);
    EntryCarries(Aliases(ms), ms, AccountKey(o.serverId, o.userId));
  }
}
