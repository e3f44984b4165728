/** What a merged message window shows and in which order, read off the two lists. */
module WindowContents {
  import opened Sorting
  import opened MessageWindow

  function Identities(s: seq<Note>): set<string> {
    set n | n in s :: Identity(n)
  }

  /** The messages a merge chooses from. */
  function Merged(existing: seq<Note>, incoming: seq<Note>): map<string, Note> {
    SpreadAll(PutAll(existing), incoming)
  }

  /** Of the messages present, the last of an identity counts, as a whole. */
  lemma {:induction false} LastExistingCounts(existing: seq<Note>, i: nat)
    requires i < |existing| && forall j | i < j < |existing| :: Identity(existing[j]) != Identity(existing[i])
    ensures Identity(existing[i]) in PutAll(existing) && PutAll(existing)[Identity(existing[i])] == existing[i]
  {
    hide Identity;
    if i < |existing| - 1 {
      LastExistingCounts(existing[..|existing| - 1], i);
    }
  }

  lemma {:induction false} PutKeys(existing: seq<Note>)
    ensures PutAll(existing).Keys == Identities(existing)
  {
    hide Identity;
    if existing != [] {
      var rest := existing[..|existing| - 1];
      assert existing == rest + [existing[|existing| - 1]];
      PutKeys(rest);
    }
  }

  lemma {:induction false} SpreadKeys(m: map<string, Note>, incoming: seq<Note>)
    ensures SpreadAll(m, incoming).Keys == m.Keys + Identities(incoming)
  {
    hide Identity, Spread;
    if incoming != [] {
      var rest := incoming[..|incoming| - 1];
      assert incoming == rest + [incoming[|incoming| - 1]];
      SpreadKeys(m, rest);
    }
  }

  /** There is one message for each identity of either list. */
  lemma {:induction false} MergedIdentities(existing: seq<Note>, incoming: seq<Note>)
    ensures Merged(existing, incoming).Keys == Identities(existing + incoming)
    ensures forall k | k in Merged(existing, incoming) :: Identity(Merged(existing, incoming)[k]) == k
    ensures |Merged(existing, incoming).Values| == |Identities(existing + incoming)|
  {
    hide Identity, PutAll, SpreadAll;
    PutKeys(existing);
    SpreadKeys(PutAll(existing), incoming);
    PutIdentified(existing);
    SpreadIdentified(PutAll(existing), incoming);
    assert Identities(existing + incoming) == Identities(existing) + Identities(incoming);
    OneValuePerKey(Merged(existing, incoming));
  }

  lemma {:induction false} OneValuePerKey(m: map<string, Note>)
    requires Identified(m)
    ensures |m.Values| == |m|
  {
    hide Identity;
    if m != map[] {
      var k :| k in m;
      var rest := m - {k};
      OneValuePerKey(rest);
      assert m.Values == rest.Values + {m[k]} by {
        forall n ensures n in m.Values <==> n in rest.Values + {m[k]} {
          if n in m.Values {
            var l :| l in m && m[l] == n;
            assert l != k ==> l in rest && rest[l] == n;
          }
        }
      }
      assert m[k] !in rest.Values;
    }
  }

  /** `a` is shown above `b`: it is older, or of the same time and smaller in ID. */
  predicate Above(lt: (string, string) -> bool, a: Note, b: Note) {
    a.timestamp < b.timestamp || (a.timestamp == b.timestamp && lt(a.id, b.id))
  }

  /** THE WINDOW. It shows as many of the merged messages as there are, up to the limit; by time and then
      by ID; and those left out come before all that are shown, or after them if the older are wanted. */
  lemma {:induction false} WindowExactly(existing: seq<Note>, incoming: seq<Note>, newer: bool, limit: int,
        lt: (string, string) -> bool)
    requires TotalOrder(lt) && limit >= 1
    ensures var r, all := MergeWindow(existing, incoming, newer, limit, lt), Merged(existing, incoming).Values;
      var n := |Identities(existing + incoming)|;
      && |r| == (if n <= limit then n else limit)
      && (forall i, j | 0 <= i < j < |r| ::
            (r[i].timestamp < r[j].timestamp || (r[i].timestamp == r[j].timestamp && lt(r[i].id, r[j].id))))
      && (forall m | m in r :: m in all)
      && (newer ==> forall m, i | m in all && m !in r && 0 <= i < |r| ::
            (m.timestamp < r[i].timestamp || (m.timestamp == r[i].timestamp && lt(m.id, r[i].id))))
      && (!newer ==> forall m, i | m in all && m !in r && 0 <= i < |r| ::
            (r[i].timestamp < m.timestamp || (r[i].timestamp == m.timestamp && lt(r[i].id, m.id))))
  {
    hide TotalOrder, Identity, PutAll, SpreadAll, WindowOf, NoteLess, Identities;
    PutIdentified(existing);
    SpreadIdentified(PutAll(existing), incoming);
    MergedIdentities(existing, incoming);
    var all := Merged(existing, incoming);
    var sorted := WindowSorts(all, newer, limit, lt);
    KeyLessTotal(lt);
    AscendingDistinct(sorted, NoteLess(lt));
    forall i, j | 0 <= i < j < |sorted| ensures Above(lt, sorted[i], sorted[j]) {
      LessIsAbove(lt, sorted[i], sorted[j]);
    }
    forall m | m in all.Values ensures m in sorted {
      assert m in Elements(sorted);
    }
    Shown(sorted, newer, limit, lt);
  }

  lemma LessIsAbove(lt: (string, string) -> bool, a: Note, b: Note)
    ensures NoteLess(lt)(a, b) <==> Above(lt, a, b)
  {
  }

  lemma {:induction false} WindowSlice(sorted: seq<Note>, newer: bool, limit: int) returns (from: int, to: int)
    requires limit >= 1
    ensures 0 <= from <= to <= |sorted| && Window(sorted, newer, limit) == sorted[from..to]
    ensures to - from == (if |sorted| <= limit then |sorted| else limit)
    ensures if newer then to == |sorted| else from == 0
  {
    from := if newer && |sorted| > limit then |sorted| - limit else 0;
    to := if newer || |sorted| <= limit then |sorted| else limit;
  }

  lemma {:induction false} Shown(sorted: seq<Note>, newer: bool, limit: int, lt: (string, string) -> bool)
    requires limit >= 1 && forall i, j | 0 <= i < j < |sorted| :: Above(lt, sorted[i], sorted[j])
    ensures var r := Window(sorted, newer, limit);
      && |r| == (if |sorted| <= limit then |sorted| else limit)
      && (forall i, j | 0 <= i < j < |r| :: Above(lt, r[i], r[j]))
      && (forall m | m in r :: m in sorted)
      && (newer ==> forall m, i | m in sorted && m !in r && 0 <= i < |r| :: Above(lt, m, r[i]))
      && (!newer ==> forall m, i | m in sorted && m !in r && 0 <= i < |r| :: Above(lt, r[i], m))
  {
    hide *;
    var from, to := WindowSlice(sorted, newer, limit);
    forall m | m in sorted && m !in sorted[from..to]
      ensures forall i | from <= i < to :: if newer then Above(lt, m, sorted[i]) else Above(lt, sorted[i], m)
    {
      LeftOut(sorted, from, to, m, newer, lt);
    }
  }

  lemma {:induction false} LeftOut(sorted: seq<Note>, from: int, to: int, m: Note, newer: bool,
        lt: (string, string) -> bool)
    requires forall i, j | 0 <= i < j < |sorted| :: Above(lt, sorted[i], sorted[j])
    requires 0 <= from <= to <= |sorted| && if newer then to == |sorted| else from == 0
    requires m in sorted && m !in sorted[from..to]
    ensures forall i | from <= i < to :: if newer then Above(lt, m, sorted[i]) else Above(lt, sorted[i], m)
  {
    hide Above;
    forall k | from <= k < to ensures sorted[k] in sorted[from..to] {
      assert sorted[from..to][k - from] == sorted[k];
    }
    var j :| 0 <= j < |sorted| && sorted[j] == m;
  }

  /** A negative limit drops that many messages, the oldest or the newest. */
  lemma {:induction false} NegativeLimitDrops(s: seq<Note>, newer: bool, limit: int)
    requires limit < 0
    ensures var r := Window(s, newer, limit);
      && |r| == (if |s| + limit < 0 then 0 else |s| + limit)
      && r == if newer then s[|s| - |r|..] else s[..|r|]
  {
  }
}
