/** `mergeMessageWindow` (src/utils/messageWindow.ts). `localeCompare` on message IDs is a parameter,
    a total order; an absent ID is the empty string. */
module MessageWindow {
  import opened Text
  import opened Sorting

  datatype Note = Note(id: string, timestamp: int, fields: map<string, string>)

  datatype Key = Key(timestamp: int, id: string)

  function Identity(n: Note): string {
    if n.id != "" then "id:" + n.id else "timestamp:" + Decimal(n.timestamp)
  }

  function KeyOf(n: Note): Key {
    Key(n.timestamp, n.id)
  }

  /** Two messages are one and the same if they share an ID or, having none, a timestamp. */
  lemma IdentityExact(a: Note, b: Note)
    ensures Identity(a) == Identity(b) <==> a.id == b.id && (a.id == "" ==> a.timestamp == b.timestamp)
  {
    DecimalRoundTrip(a.timestamp);
    DecimalRoundTrip(b.timestamp);
    var x, y := Identity(a), Identity(b);
    assert a.id != "" ==> x[0] == 'i' && x[3..] == a.id;
    assert b.id != "" ==> y[0] == 'i' && y[3..] == b.id;
    assert a.id == "" ==> x[0] == 't' && x[10..] == Decimal(a.timestamp);
    assert b.id == "" ==> y[0] == 't' && y[10..] == Decimal(b.timestamp);
  }

  // ---- order ----

  predicate Before(lt: (string, string) -> bool, a: Key, b: Key) {
    a.timestamp < b.timestamp || (a.timestamp == b.timestamp && lt(a.id, b.id))
  }

  function KeyLess(lt: (string, string) -> bool): (Key, Key) -> bool {
    (a: Key, b: Key) => Before(lt, a, b)
  }

  /** The comparator handed to `sort`. */
  function NoteLess(lt: (string, string) -> bool): (Note, Note) -> bool {
    (a: Note, b: Note) => Before(lt, KeyOf(a), KeyOf(b))
  }

  lemma KeyLessTotal(lt: (string, string) -> bool)
    requires TotalOrder(lt)
    ensures TotalOrder(KeyLess(lt)) && PartialOrder(NoteLess(lt))
  {
    forall x, y, z
      ensures !Before(lt, x, x)
      ensures Before(lt, x, y) && Before(lt, y, z) ==> Before(lt, x, z)
      ensures Before(lt, x, y) || Before(lt, y, x) || x == y
    {
      assert !lt(x.id, x.id);
      assert lt(x.id, y.id) && lt(y.id, z.id) ==> lt(x.id, z.id);
      assert lt(x.id, y.id) || lt(y.id, x.id) || x.id == y.id;
    }
  }

  // ---- the merged map ----

  function PutAll(existing: seq<Note>): map<string, Note> {
    if existing == [] then map[] else
      var n := existing[|existing| - 1];
      PutAll(existing[..|existing| - 1])[Identity(n) := n]
  }

  /** `{...merged.get(identity), ...message}` */
  function Spread(m: map<string, Note>, n: Note): Note {
    if Identity(n) in m then n.(fields := m[Identity(n)].fields + n.fields) else n
  }

  function SpreadAll(m: map<string, Note>, incoming: seq<Note>): map<string, Note> {
    if incoming == [] then m else
      var p := SpreadAll(m, incoming[..|incoming| - 1]);
      var n := incoming[|incoming| - 1];
      p[Identity(n) := Spread(p, n)]
  }

  /** The last incoming message of an identity decides its timestamp and every field it carries; what
      it does not carry stays as it was. */
  lemma {:induction false} IncomingWins(m: map<string, Note>, s: seq<Note>, i: nat)
    requires i < |s| && forall j | i < j < |s| :: Identity(s[j]) != Identity(s[i])
    ensures var r, k := SpreadAll(m, s), Identity(s[i]);
      && k in r && r[k].id == s[i].id && r[k].timestamp == s[i].timestamp
      && (forall f | f in s[i].fields :: f in r[k].fields && r[k].fields[f] == s[i].fields[f])
      && (forall f | f !in s[i].fields ::
            var p := SpreadAll(m, s[..i]);
            (f in r[k].fields <==> k in p && f in p[k].fields) &&
                (f in r[k].fields ==> r[k].fields[f] == p[k].fields[f]))
  {
    hide Identity;
    var t := s[..|s| - 1];
    if i < |t| {
      assert t[..i] == s[..i];
      IncomingWins(m, t, i);
    } else {
      assert t == s[..i];
    }
  }

  /** Other identities are untouched. */
  lemma {:induction false} OthersKept(m: map<string, Note>, s: seq<Note>, k: string)
    requires forall n | n in s :: Identity(n) != k
    ensures var r := SpreadAll(m, s); (k in r <==> k in m) && (k in m ==> r[k] == m[k])
  {
    hide Identity;
    if s != [] {
      assert s == s[..|s| - 1] + [s[|s| - 1]];
      OthersKept(m, s[..|s| - 1], k);
    }
  }

  predicate Identified(m: map<string, Note>) {
    forall k | k in m :: Identity(m[k]) == k
  }

  lemma {:induction false} PutIdentified(s: seq<Note>)
    ensures Identified(PutAll(s))
  {
    if s != [] { PutIdentified(s[..|s| - 1]); }
  }

  lemma {:induction false} SpreadIdentified(m: map<string, Note>, s: seq<Note>)
    requires Identified(m)
    ensures Identified(SpreadAll(m, s))
  {
    if s != [] {
      SpreadIdentified(m, s[..|s| - 1]);
      var p, n := SpreadAll(m, s[..|s| - 1]), s[|s| - 1];
      IdentityExact(Spread(p, n), n);
    }
  }

  lemma IdentifiedComparable(m: map<string, Note>, lt: (string, string) -> bool)
    requires TotalOrder(lt) && Identified(m)
    ensures Comparable(m.Values, NoteLess(lt))
  {
    hide Identity;
    forall x, y | x in m.Values && y in m.Values && x != y ensures NoteLess(lt)(x, y) || NoteLess(lt)(y, x) {
      IdentityExact(x, y);
      assert KeyOf(x) != KeyOf(y);
      KeyLessTotal(lt);
      assert KeyLess(lt)(KeyOf(x), KeyOf(y)) || KeyLess(lt)(KeyOf(y), KeyOf(x));
    }
  }

  // ---- the window ----

  /** JavaScript's `slice(0, limit)` and `slice(-limit)`. */
  function Slice<T>(s: seq<T>, newer: bool, limit: int): seq<T>
    requires limit < |s|
  {
    if newer then
      if limit > 0 then s[|s| - limit..] else if -limit <= |s| then s[-limit..] else []
    else
      if limit >= 0 then s[..limit] else if -limit <= |s| then s[..|s| + limit] else []
  }

  function Window<T>(s: seq<T>, newer: bool, limit: int): seq<T> {
    if |s| <= limit then s else Slice(s, newer, limit)
  }

  /** A limit of zero keeps every message when the direction is `newer`. */
  lemma ZeroLimitKeepsAll(s: seq<Note>)
    ensures Window(s, true, 0) == s && Window(s, false, 0) == []
  {
  }

  /** The window is within the limit exactly if the limit is positive, or it is zero and the direction
      is `older` or nothing is there. */
  lemma {:induction false} WithinLimitExactly(s: seq<Note>, newer: bool, limit: int)
    ensures |Window(s, newer, limit)| <= limit <==> limit >= 1 || (limit == 0 && (!newer || s == []))
  {
  }

  ghost function MergeWindow(existing: seq<Note>, incoming: seq<Note>, newer: bool, limit: int,
        lt: (string, string) -> bool): seq<Note>
    requires TotalOrder(lt)
  {
    PutIdentified(existing);
    SpreadIdentified(PutAll(existing), incoming);
    WindowOf(SpreadAll(PutAll(existing), incoming), newer, limit, lt)
  }

  ghost function WindowOf(m: map<string, Note>, newer: bool, limit: int, lt: (string, string) -> bool): seq<Note>
    requires TotalOrder(lt) && Identified(m)
  {
    KeyLessTotal(lt);
    IdentifiedComparable(m, lt);
    Window(SortSet(m.Values, NoteLess(lt)), newer, limit)
  }

  method MergeMessageWindow(existing: seq<Note>, incoming: seq<Note>, newer: bool, limit: int,
        lt: (string, string) -> bool)
    returns (r: seq<Note>)
    requires TotalOrder(lt)
    ensures r == MergeWindow(existing, incoming, newer, limit, lt)
  {
    hide Identity, Spread, NoteLess, PartialOrder, Ascending, Comparable, SortSet, Sort;
    var merged: map<string, Note> := map[];
    for i := 0 to |existing|
      invariant merged == PutAll(existing[..i])
    {
      assert existing[..i + 1][..i] == existing[..i];
      merged := merged[Identity(existing[i]) := existing[i]];
    }
    assert existing[..|existing|] == existing;
    for i := 0 to |incoming|
      invariant merged == SpreadAll(PutAll(existing), incoming[..i])
    {
      assert incoming[..i + 1][..i] == incoming[..i];
      var identity := Identity(incoming[i]);
      merged := merged[identity := Spread(merged, incoming[i])];
    }
    assert incoming[..|incoming|] == incoming;
    PutIdentified(existing);
    SpreadIdentified(PutAll(existing), incoming);
    var sorted := SortValues(merged, lt);
    if |sorted| <= limit {
      return sorted;
    }
    return Slice(sorted, newer, limit);
  }

  method SortValues(m: map<string, Note>, lt: (string, string) -> bool) returns (r: seq<Note>)
    requires TotalOrder(lt) && Identified(m)
    ensures PartialOrder(NoteLess(lt)) && Comparable(m.Values, NoteLess(lt)) && r == SortSet(m.Values, NoteLess(lt))
  {
    var values := Collect(m.Values);
    KeyLessTotal(lt);
    IdentifiedComparable(m, lt);
    hide *;
    SortAscending(values, NoteLess(lt));
    r := Sort(values, NoteLess(lt));
    AscendingUnique(r, SortSet(m.Values, NoteLess(lt)), NoteLess(lt));
  }

  // ---- which keys stay ----

  predicate Ahead(lt: (string, string) -> bool, newer: bool, x: Key, y: Key) {
    if newer then Before(lt, x, y) else Before(lt, y, x)
  }

  function Beyond(lt: (string, string) -> bool, newer: bool, s: set<Key>, x: Key): set<Key> {
    set y | y in s && Ahead(lt, newer, x, y)
  }

  /** The `limit` newest, or oldest, keys. */
  function Kept(lt: (string, string) -> bool, newer: bool, s: set<Key>, limit: nat): set<Key> {
    set x | x in s && |Beyond(lt, newer, s, x)| < limit
  }

  lemma AheadAt(lt: (string, string) -> bool, newer: bool, s: seq<Key>, i: nat, j: nat)
    requires TotalOrder(lt) && Ascending(s, KeyLess(lt)) && i < |s| && j < |s|
    ensures Ahead(lt, newer, s[i], s[j]) <==> if newer then i < j else j < i
  {
    KeyLessTotal(lt);
    assert i < j ==> KeyLess(lt)(s[i], s[j]);
    assert j < i ==> KeyLess(lt)(s[j], s[i]);
    assert !(KeyLess(lt)(s[i], s[j]) && KeyLess(lt)(s[j], s[i]));
  }

  lemma BeyondAt(lt: (string, string) -> bool, newer: bool, s: seq<Key>, i: nat)
    requires TotalOrder(lt) && Ascending(s, KeyLess(lt)) && i < |s|
    ensures |Beyond(lt, newer, Elements(s), s[i])| == if newer then |s| - i - 1 else i
  {
    hide KeyLess, TotalOrder, Ascending, Ahead;
    var part := if newer then s[i + 1..] else s[..i];
    assert Distinct(part) by {
      KeyLessTotal(lt);
      AscendingDistinct(s, KeyLess(lt));
    }
    DistinctSize(part);
    assert Beyond(lt, newer, Elements(s), s[i]) == Elements(part) by {
      forall y | y in Elements(s) ensures Ahead(lt, newer, s[i], y) <==> y in part {
        var j :| 0 <= j < |s| && s[j] == y;
        AheadAt(lt, newer, s, i, j);
        assert newer && j > i ==> part[j - i - 1] == y;
        assert !newer && j < i ==> part[j] == y;
        if y in part {
          var k :| 0 <= k < |part| && part[k] == y;
          AheadAt(lt, newer, s, i, if newer then i + 1 + k else k);
        }
      }
    }
  }

  /** The window of a sorted sequence holds exactly the keys with fewer than `limit` ahead of them. */
  lemma WindowIsKept(lt: (string, string) -> bool, newer: bool, s: seq<Key>, limit: nat)
    requires TotalOrder(lt) && Ascending(s, KeyLess(lt)) && limit >= 1
    ensures Elements(Window(s, newer, limit)) == Kept(lt, newer, Elements(s), limit)
    ensures |Kept(lt, newer, Elements(s), limit)| == if |s| <= limit then |s| else limit
  {
    var w := Window(s, newer, limit);
    hide Beyond, KeyLess;
    forall x ensures x in Elements(w) <==> x in Kept(lt, newer, Elements(s), limit) {
      if x in Elements(s) {
        var i :| 0 <= i < |s| && s[i] == x;
        BeyondAt(lt, newer, s, i);
        if x in Elements(w) {
          var j :| 0 <= j < |w| && w[j] == x;
          BeyondAt(lt, newer, s, if newer then |s| - |w| + j else j);
        }
        assert newer && i >= |s| - |w| ==> w[i - (|s| - |w|)] == x;
        assert !newer && i < |w| ==> w[i] == x;
      }
    }
    KeyLessTotal(lt);
    AscendingDistinct(w, KeyLess(lt));
  }

  lemma AheadTransitive(lt: (string, string) -> bool, newer: bool, x: Key, y: Key, z: Key)
    requires TotalOrder(lt)
    ensures Ahead(lt, newer, x, y) && Ahead(lt, newer, y, z) ==> Ahead(lt, newer, x, z)
    ensures Ahead(lt, newer, x, y) || Ahead(lt, newer, y, x) || x == y
  {
    KeyLessTotal(lt);
    var less := KeyLess(lt);
    assert newer ==> less(x, y) && less(y, z) ==> less(x, z);
    assert !newer ==> less(z, y) && less(y, x) ==> less(z, x);
    assert less(x, y) || less(y, x) || x == y;
  }

  lemma SubsetSize<T>(a: set<T>, b: set<T>)
    requires a <= b
    ensures |a| <= |b|
  {
    assert b == a + (b - a);
  }

  lemma BeyondGrows(lt: (string, string) -> bool, newer: bool, s: set<Key>, t: set<Key>, x: Key)
    requires s <= t
    ensures |Beyond(lt, newer, s, x)| <= |Beyond(lt, newer, t, x)|
  {
    SubsetSize(Beyond(lt, newer, s, x), Beyond(lt, newer, t, x));
  }

  /** Everything kept is ahead of everything dropped, and then as many are kept as allowed. */
  lemma KeptAheadOfDropped(lt: (string, string) -> bool, newer: bool, s: set<Key>, limit: nat, y: Key)
    requires TotalOrder(lt) && limit >= 1 && y in s && y !in Kept(lt, newer, s, limit)
    ensures Kept(lt, newer, s, limit) <= Beyond(lt, newer, s, y) && |Kept(lt, newer, s, limit)| == limit
  {
    hide Ahead, TotalOrder, KeyLess;
    forall x | x in Kept(lt, newer, s, limit) ensures Ahead(lt, newer, y, x) {
      AheadTransitive(lt, newer, x, y, y);
      if Ahead(lt, newer, x, y) {
        forall z | z in Beyond(lt, newer, s, y) ensures z in Beyond(lt, newer, s, x) {
          AheadTransitive(lt, newer, x, y, z);
        }
        SubsetSize(Beyond(lt, newer, s, y), Beyond(lt, newer, s, x));
      }
    }
    KeyLessTotal(lt);
    var sorted := SortOf(lt, s);
    WindowIsKept(lt, newer, sorted, limit);
    SubsetSize(Beyond(lt, newer, s, y), s);
  }

  lemma SortOf(lt: (string, string) -> bool, s: set<Key>) returns (r: seq<Key>)
    requires TotalOrder(lt)
    ensures Ascending(r, KeyLess(lt)) && Elements(r) == s && |r| == |s|
  {
    KeyLessTotal(lt);
    r := SortSet(s, KeyLess(lt));
  }

  /** Keeping the best of `s`, adding `t` and keeping the best again is keeping the best of both. */
  lemma KeptOfKept(lt: (string, string) -> bool, newer: bool, s: set<Key>, t: set<Key>, limit: nat)
    requires TotalOrder(lt) && limit >= 1
    ensures Kept(lt, newer, Kept(lt, newer, s, limit) + t, limit) == Kept(lt, newer, s + t, limit)
  {
    hide TotalOrder, Ahead;
    var k := Kept(lt, newer, s, limit);
    forall x | x in s + t ensures x in Kept(lt, newer, k + t, limit) <==> x in Kept(lt, newer, s + t, limit) {
      BeyondGrows(lt, newer, s, s + t, x);
      BeyondGrows(lt, newer, k + t, s + t, x);
      if x in Kept(lt, newer, k + t, limit) && !(Beyond(lt, newer, s + t, x) <= Beyond(lt, newer, k + t, x)) {
        var y :| y in Beyond(lt, newer, s + t, x) && y !in Beyond(lt, newer, k + t, x);
        KeptAheadOfDropped(lt, newer, s, limit, y);
        forall z | z in k ensures z in Beyond(lt, newer, k + t, x) {
          AheadTransitive(lt, newer, x, y, z);
        }
        SubsetSize(k, Beyond(lt, newer, k + t, x));
      } else if x in Kept(lt, newer, k + t, limit) {
        SubsetSize(Beyond(lt, newer, s + t, x), Beyond(lt, newer, k + t, x));
      }
    }
  }

  // ---- stable timestamps ----

  /** Every message carries the timestamp that belongs to its identity. */
  ghost predicate Stamped(s: seq<Note>, stamp: string -> int) {
    forall n | n in s :: n.timestamp == stamp(Identity(n))
  }

  ghost predicate MapStamped(m: map<string, Note>, stamp: string -> int) {
    Identified(m) && forall k | k in m :: m[k].timestamp == stamp(k)
  }

  /** No two messages of the same identity differ in their timestamp. */
  ghost predicate Stable(s: seq<Note>) {
    forall a, b | a in s && b in s && Identity(a) == Identity(b) :: a.timestamp == b.timestamp
  }

  lemma StableStamped(s: seq<Note>) returns (stamp: string -> int)
    requires Stable(s)
    ensures Stamped(s, stamp)
  {
    stamp := (k: string) => if exists n :: n in s && Identity(n) == k then StampOf(s, k) else 0;
  }

  ghost function StampOf(s: seq<Note>, k: string): int
    requires exists n :: n in s && Identity(n) == k
  {
    var n :| n in s && Identity(n) == k;
    n.timestamp
  }

  function KeysOf(m: map<string, Note>): set<Key> {
    set k | k in m :: KeyOf(m[k])
  }

  function KeysIn(s: seq<Note>): set<Key> {
    set n | n in s :: KeyOf(n)
  }

  lemma {:induction false} PutStamped(s: seq<Note>, stamp: string -> int)
    requires Stamped(s, stamp)
    ensures MapStamped(PutAll(s), stamp)
    ensures KeysOf(PutAll(s)) == KeysIn(s)
  {
    hide Identity, KeysOf, Identified;
    PutIdentified(s);
    if s != [] {
      var rest, n := s[..|s| - 1], s[|s| - 1];
      PutStamped(rest, stamp);
      AddKey(PutAll(rest), Identity(n), n, stamp);
      assert s == rest + [n];
      assert KeysIn(s) == KeysIn(rest) + {KeyOf(n)};
    } else {
      NoKeys();
    }
  }

  lemma NoKeys()
    ensures KeysOf(map[]) == {}
  {
  }

  lemma {:induction false} SpreadStamped(m: map<string, Note>, s: seq<Note>, stamp: string -> int)
    requires MapStamped(m, stamp) && Stamped(s, stamp)
    ensures MapStamped(SpreadAll(m, s), stamp)
    ensures KeysOf(SpreadAll(m, s)) == KeysOf(m) + KeysIn(s)
  {
    hide Identity, KeysOf, Identified;
    SpreadIdentified(m, s);
    if s != [] {
      var rest, n := s[..|s| - 1], s[|s| - 1];
      SpreadStamped(m, rest, stamp);
      var p := SpreadAll(m, rest);
      IdentityExact(Spread(p, n), n);
      AddKey(p, Identity(n), Spread(p, n), stamp);
      assert s == rest + [n];
      assert KeysIn(s) == KeysIn(rest) + {KeyOf(n)};
    }
  }

  lemma AddKey(p: map<string, Note>, k: string, n: Note, stamp: string -> int)
    requires MapStamped(p, stamp) && Identity(n) == k && n.timestamp == stamp(k)
    ensures KeysOf(p[k := n]) == KeysOf(p) + {KeyOf(n)} && MapStamped(p[k := n], stamp)
  {
    hide Identity;
    var q := p[k := n];
    if k in p { IdentityExact(p[k], n); }
    forall x | x in KeysOf(p) ensures x in KeysOf(q) {
      var j :| j in p && KeyOf(p[j]) == x;
      assert j in q && KeyOf(q[j]) == x;
    }
    assert k in q && q[k] == n;
  }

  // ---- streaming equals batch ----

  /** The part of the map that the window shows. */
  function KeepMap(lt: (string, string) -> bool, newer: bool, m: map<string, Note>, limit: nat): map<string, Note> {
    var kept := Kept(lt, newer, KeysOf(m), limit);
    map k | k in m && KeyOf(m[k]) in kept :: m[k]
  }

  lemma KeepMapKeys(lt: (string, string) -> bool, newer: bool, m: map<string, Note>, limit: nat)
    ensures KeysOf(KeepMap(lt, newer, m, limit)) == Kept(lt, newer, KeysOf(m), limit)
  {
    hide Kept;
    var r := KeepMap(lt, newer, m, limit);
    assert Kept(lt, newer, KeysOf(m), limit) <= KeysOf(m) by { KeptSubset(lt, newer, KeysOf(m), limit); }
    forall x | x in Kept(lt, newer, KeysOf(m), limit) ensures x in KeysOf(r) {
      var k :| k in m && KeyOf(m[k]) == x;
      assert k in r && KeyOf(r[k]) == x;
    }
  }

  lemma KeptSubset(lt: (string, string) -> bool, newer: bool, s: set<Key>, limit: nat)
    ensures Kept(lt, newer, s, limit) <= s
  {
  }

  /** What messages add to an entry, by themselves. */
  lemma {:induction false} SpreadAt(m: map<string, Note>, s: seq<Note>, k: string)
    ensures var r, c := SpreadAll(m, s), SpreadAll(map[], s);
      && (k in r <==> k in m || k in c)
      && (k in r ==> r[k] == if k !in c then m[k]
                             else if k in m then c[k].(fields := m[k].fields + c[k].fields) else c[k])
  {
    hide Identity;
    if s != [] {
      SpreadAt(m, s[..|s| - 1], k);
    }
  }

  /** The messages carry the entry with every field it has. */
  predicate Carries(s: seq<Note>, n: Note, k: string) {
    var c := SpreadAll(map[], s);
    k in c && n.fields.Keys <= c[k].fields.Keys
  }

  /** Spreading the same messages over a map and over a part of it: the keys agree, and the entries too
      except where the part lacks one that the messages do not carry. */
  lemma {:induction false} SpreadAgrees(part: map<string, Note>, m: map<string, Note>, s: seq<Note>, k: string)
    requires k in part ==> k in m && part[k] == m[k]
    ensures var p, q := SpreadAll(part, s), SpreadAll(m, s);
      && (k in p ==> k in q && KeyOf(p[k]) == KeyOf(q[k]))
      && (k in m && k !in part ==> (k in p && k in q && p[k] == q[k] <==> Carries(s, m[k], k)))
      && (k in part || k !in m ==> (k in p <==> k in q) && (k in p ==> p[k] == q[k]))
      && (k in m ==> k in q)
  {
    SpreadAt(part, s, k);
    SpreadAt(m, s, k);
    hide SpreadAll;
    var c := SpreadAll(map[], s);
    if k in m && k in c {
      var both := m[k].fields + c[k].fields;
      assert both.Keys == m[k].fields.Keys + c[k].fields.Keys;
      assert m[k].fields.Keys <= c[k].fields.Keys ==> both == c[k].fields;
    }
  }

  /** An entry the window dropped stays dropped when more messages arrive. */
  lemma DroppedEntry(lt: (string, string) -> bool, newer: bool, m: map<string, Note>, q: map<string, Note>,
                     limit: nat, k: string, stamp: string -> int)
    requires MapStamped(m, stamp) && MapStamped(q, stamp) && KeysOf(m) <= KeysOf(q)
    requires k in m && k in q && k !in KeepMap(lt, newer, m, limit)
    ensures KeyOf(q[k]) !in Kept(lt, newer, KeysOf(q), limit)
  {
    hide Kept, MapStamped;
    assert KeyOf(m[k]) in KeysOf(m);
    DroppedStays(lt, newer, KeysOf(m), KeysOf(q), KeyOf(m[k]), limit);
    SameStamp(m, q, k, stamp);
  }

  /** `p` and `q` show the same under `k`. */
  predicate SameEntry(p: map<string, Note>, q: map<string, Note>, kept: set<Key>, k: string) {
    && (k in p && KeyOf(p[k]) in kept <==> k in q && KeyOf(q[k]) in kept)
    && (k in p && KeyOf(p[k]) in kept ==> p[k] == q[k])
  }

  lemma SameEntriesKept(lt: (string, string) -> bool, newer: bool, p: map<string, Note>, q: map<string, Note>,
        limit: nat)
    requires Kept(lt, newer, KeysOf(p), limit) == Kept(lt, newer, KeysOf(q), limit)
    requires forall k :: SameEntry(p, q, Kept(lt, newer, KeysOf(q), limit), k)
    ensures KeepMap(lt, newer, p, limit) == KeepMap(lt, newer, q, limit)
  {
    hide Kept, KeysOf, KeyOf;
    var kept := Kept(lt, newer, KeysOf(q), limit);
    var a, b := KeepMap(lt, newer, p, limit), KeepMap(lt, newer, q, limit);
    forall k ensures (k in a <==> k in b) && (k in a ==> a[k] == b[k]) {
      assert SameEntry(p, q, kept, k);
    }
  }

  /** Between a set and the best of it nothing changes what is best. */
  lemma {:induction false} KeptBetween(lt: (string, string) -> bool, newer: bool, s: set<Key>, t: set<Key>, limit: nat)
    requires TotalOrder(lt) && limit >= 1 && Kept(lt, newer, t, limit) <= s <= t
    ensures Kept(lt, newer, s, limit) == Kept(lt, newer, t, limit)
  {
    KeptOfKept(lt, newer, t, s, limit);
    hide Kept;
    assert Kept(lt, newer, t, limit) + s == s && t + s == t;
  }

  /** How many messages of a map are ahead of an entry of another. */
  function CountAhead(lt: (string, string) -> bool, newer: bool, m: map<string, Note>, n: Note): nat {
    |Beyond(lt, newer, KeysOf(m), KeyOf(n))|
  }

  lemma {:induction false} ShownByCount(lt: (string, string) -> bool, newer: bool, m: map<string, Note>, limit: nat,
        k: string)
    ensures k in KeepMap(lt, newer, m, limit) <==> k in m && CountAhead(lt, newer, m, m[k]) < limit
  {
    hide Beyond;
    assert k in m ==> KeyOf(m[k]) in KeysOf(m);
  }

  /** `limit` messages were ahead of this entry, so that the first window dropped it; in the whole batch
      fewer are; and the later messages do not carry it. */
  ghost predicate Missed(lt: (string, string) -> bool, newer: bool, m: map<string, Note>, b: seq<Note>, limit: nat,
        k: string)
  {
    var all := SpreadAll(m, b);
    && k in m && k in all && CountAhead(lt, newer, m, m[k]) >= limit > CountAhead(lt, newer, all, all[k])
    && !Carries(b, m[k], k)
  }

  lemma {:induction false} MissedIs(lt: (string, string) -> bool, newer: bool, m: map<string, Note>, b: seq<Note>,
        limit: nat, k: string)
    ensures Missed(lt, newer, m, b, limit, k) <==>
      (&& k in m && k !in KeepMap(lt, newer, m, limit)
       && k in KeepMap(lt, newer, SpreadAll(m, b), limit) && !Carries(b, m[k], k))
  {
    hide CountAhead, KeepMap, Carries;
    ShownByCount(lt, newer, m, limit, k);
    ShownByCount(lt, newer, SpreadAll(m, b), limit, k);
  }

  ghost predicate NothingReturns(lt: (string, string) -> bool, newer: bool, m: map<string, Note>, b: seq<Note>,
        limit: nat)
  {
    forall k :: !Missed(lt, newer, m, b, limit, k)
  }

  lemma {:induction false} MissedDiffers(lt: (string, string) -> bool, newer: bool, m: map<string, Note>, b: seq<Note>,
        limit: nat, k: string)
    requires Missed(lt, newer, m, b, limit, k)
    ensures KeepMap(lt, newer, SpreadAll(KeepMap(lt, newer, m, limit), b), limit)
         != KeepMap(lt, newer, SpreadAll(m, b), limit)
  {
    var part := KeepMap(lt, newer, m, limit);
    MissedIs(lt, newer, m, b, limit, k);
    hide SpreadAll, Kept, KeysOf, Missed;
    SpreadAgrees(part, m, b, k);
  }

  lemma {:induction false} NothingMissed(lt: (string, string) -> bool, newer: bool, m: map<string, Note>, b: seq<Note>,
        limit: nat)
    requires TotalOrder(lt) && limit >= 1 && NothingReturns(lt, newer, m, b, limit)
    ensures KeepMap(lt, newer, SpreadAll(KeepMap(lt, newer, m, limit), b), limit)
         == KeepMap(lt, newer, SpreadAll(m, b), limit)
  {
    var part := KeepMap(lt, newer, m, limit);
    var p, q := SpreadAll(part, b), SpreadAll(m, b);
    KeepMapEntries(lt, newer, m, limit);
    KeepMapEntries(lt, newer, q, limit);
    forall k
      ensures k in p ==> k in q && KeyOf(p[k]) == KeyOf(q[k])
      ensures k in KeepMap(lt, newer, q, limit) ==> k in p && p[k] == q[k]
    {
      assert !Missed(lt, newer, m, b, limit, k);
      MissedIs(lt, newer, m, b, limit, k);
      SpreadAgrees(part, m, b, k);
    }
    hide *;
    KeepMapKeys(lt, newer, q, limit);
    KeysShared(lt, newer, p, q, limit);
    KeptBetween(lt, newer, KeysOf(p), KeysOf(q), limit);
    forall k ensures SameEntry(p, q, Kept(lt, newer, KeysOf(q), limit), k) {
      SameShown(p, q, Kept(lt, newer, KeysOf(q), limit), k);
    }
    SameEntriesKept(lt, newer, p, q, limit);
  }

  lemma {:induction false} StreamedExactly(lt: (string, string) -> bool, newer: bool, m: map<string, Note>,
        b: seq<Note>, limit: nat)
    requires TotalOrder(lt) && limit >= 1
    ensures KeepMap(lt, newer, SpreadAll(KeepMap(lt, newer, m, limit), b), limit)
         == KeepMap(lt, newer, SpreadAll(m, b), limit)
       <==> NothingReturns(lt, newer, m, b, limit)
  {
    hide WindowOf, PutAll, SpreadAll, KeepMap, TotalOrder, Identity, Missed;
    if NothingReturns(lt, newer, m, b, limit) {
      NothingMissed(lt, newer, m, b, limit);
    } else {
      var k :| Missed(lt, newer, m, b, limit, k);
      MissedDiffers(lt, newer, m, b, limit, k);
    }
  }

  lemma {:induction false} SameShown(p: map<string, Note>, q: map<string, Note>, kept: set<Key>, k: string)
    requires k in p ==> k in q && KeyOf(p[k]) == KeyOf(q[k])
    requires k in q && KeyOf(q[k]) in kept ==> k in p && p[k] == q[k]
    ensures SameEntry(p, q, kept, k)
  {
  }

  lemma {:induction false} KeysShared(lt: (string, string) -> bool, newer: bool, p: map<string, Note>,
        q: map<string, Note>, limit: nat)
    requires forall k | k in p :: k in q && KeyOf(p[k]) == KeyOf(q[k])
    requires forall k | k in KeepMap(lt, newer, q, limit) :: k in p && p[k] == q[k]
    ensures Kept(lt, newer, KeysOf(q), limit) <= KeysOf(p) <= KeysOf(q)
  {
    KeepMapKeys(lt, newer, q, limit);
    KeepMapEntries(lt, newer, q, limit);
    hide Kept, KeepMap, KeyOf;
    var kept := KeepMap(lt, newer, q, limit);
    forall x | x in KeysOf(kept) ensures x in KeysOf(p) {
      var k :| k in kept && KeyOf(kept[k]) == x;
      assert k in p;
    }
    forall x | x in KeysOf(p) ensures x in KeysOf(q) {
      var k :| k in p && KeyOf(p[k]) == x;
      assert k in q;
    }
  }

  lemma SameStamp(m: map<string, Note>, q: map<string, Note>, k: string, stamp: string -> int)
    requires MapStamped(m, stamp) && MapStamped(q, stamp) && k in m && k in q
    ensures KeyOf(m[k]) == KeyOf(q[k])
  {
    hide Identity;
    IdentityExact(m[k], q[k]);
  }

  /** A key once dropped is never kept again. */
  lemma DroppedStays(lt: (string, string) -> bool, newer: bool, s: set<Key>, t: set<Key>, x: Key, limit: nat)
    requires s <= t && x in s && x !in Kept(lt, newer, s, limit)
    ensures x !in Kept(lt, newer, t, limit)
  {
    BeyondGrows(lt, newer, s, t, x);
  }

  lemma SortedKeys(m: map<string, Note>, sorted: seq<Note>, keys: seq<Key>)
    requires |keys| == |sorted| && forall i | 0 <= i < |keys| :: keys[i] == KeyOf(sorted[i])
    requires Elements(sorted) == m.Values
    ensures Elements(keys) == KeysOf(m)
  {
    forall x ensures x in Elements(keys) <==> x in KeysOf(m) {
      if x in Elements(keys) {
        var i :| 0 <= i < |keys| && keys[i] == x;
        assert sorted[i] in Elements(sorted);
        var k :| k in m && m[k] == sorted[i];
      }
      if x in KeysOf(m) {
        var k :| k in m && KeyOf(m[k]) == x;
        assert m[k] in Elements(sorted);
        var i :| 0 <= i < |sorted| && sorted[i] == m[k];
        assert keys[i] == x;
      }
    }
  }

  lemma OneNotePerKey(m: map<string, Note>, x: Note, y: Note)
    requires Identified(m) && x in m.Values && y in m.Values && KeyOf(x) == KeyOf(y)
    ensures x == y
  {
    hide Identity;
    IdentityExact(x, y);
  }

  lemma WindowOfKeys(sorted: seq<Note>, keys: seq<Key>, newer: bool, limit: nat)
    requires |keys| == |sorted| && forall i | 0 <= i < |keys| :: keys[i] == KeyOf(sorted[i])
    requires limit >= 1
    ensures var w, v := Window(sorted, newer, limit), Window(keys, newer, limit);
      |w| == |v| && forall i | 0 <= i < |w| :: w[i] in sorted && v[i] == KeyOf(w[i])
  {
  }

  lemma WindowAscending(s: seq<Note>, newer: bool, limit: nat, lt: (Note, Note) -> bool)
    requires Ascending(s, lt) && limit >= 1
    ensures Ascending(Window(s, newer, limit), lt)
  {
  }

  /** The notes of a window are the entries whose keys are in the window of the keys. */
  lemma ShownEntries(m: map<string, Note>, w: seq<Note>, v: seq<Key>, kept: map<string, Note>)
    requires Identified(m) && |w| == |v| && forall i | 0 <= i < |w| :: w[i] in m.Values && v[i] == KeyOf(w[i])
    requires forall k :: k in kept <==> k in m && KeyOf(m[k]) in Elements(v)
    requires forall k | k in kept :: kept[k] == m[k]
    ensures Elements(w) == kept.Values
  {
    hide Identified, KeyOf;
    forall n ensures n in Elements(w) <==> n in kept.Values {
      if n in Elements(w) {
        var i :| 0 <= i < |w| && w[i] == n;
        assert v[i] in Elements(v);
        var k :| k in m && m[k] == n;
        assert kept[k] == n;
      }
      if n in kept.Values {
        var k :| k in kept && kept[k] == n;
        assert KeyOf(n) in Elements(v);
        var i :| 0 <= i < |v| && v[i] == KeyOf(n);
        OneNotePerKey(m, w[i], n);
      }
    }
  }

  lemma KeysAscending(sorted: seq<Note>, keys: seq<Key>, lt: (string, string) -> bool)
    requires |keys| == |sorted| && forall i | 0 <= i < |keys| :: keys[i] == KeyOf(sorted[i])
    requires Ascending(sorted, NoteLess(lt))
    ensures Ascending(keys, KeyLess(lt))
  {
    forall i, j | 0 <= i < j < |keys| ensures KeyLess(lt)(keys[i], keys[j]) {
      assert NoteLess(lt)(sorted[i], sorted[j]);
    }
  }

  lemma WindowSorts(m: map<string, Note>, newer: bool, limit: nat, lt: (string, string) -> bool)
    returns (sorted: seq<Note>)
    requires TotalOrder(lt) && Identified(m)
    ensures Ascending(sorted, NoteLess(lt)) && Elements(sorted) == m.Values && forall n | n in sorted :: n in m.Values
    ensures WindowOf(m, newer, limit, lt) == Window(sorted, newer, limit)
  {
    hide Window, Ascending, NoteLess, PartialOrder, TotalOrder, Comparable;
    KeyLessTotal(lt);
    IdentifiedComparable(m, lt);
    sorted := SortSet(m.Values, NoteLess(lt));
    assert forall n | n in sorted :: n in Elements(sorted);
  }

  /** The window shows the kept part of the map, in order. */
  lemma WindowShows(m: map<string, Note>, newer: bool, limit: nat, lt: (string, string) -> bool)
    requires TotalOrder(lt) && Identified(m) && limit >= 1
    ensures var r := WindowOf(m, newer, limit, lt);
      Ascending(r, NoteLess(lt)) && Elements(r) == KeepMap(lt, newer, m, limit).Values
  {
    hide *;
    var sorted := WindowSorts(m, newer, limit, lt);
    var keys := seq(|sorted|, i requires 0 <= i < |sorted| => KeyOf(sorted[i]));
    SortedKeys(m, sorted, keys);
    WindowOfKeys(sorted, keys, newer, limit);
    WindowAscending(sorted, newer, limit, NoteLess(lt));
    KeysAscending(sorted, keys, lt);
    WindowIsKept(lt, newer, keys, limit);
    KeepMapEntries(lt, newer, m, limit);
    ShownEntries(m, Window(sorted, newer, limit), Window(keys, newer, limit), KeepMap(lt, newer, m, limit));
  }

  lemma KeepMapEntries(lt: (string, string) -> bool, newer: bool, m: map<string, Note>, limit: nat)
    ensures forall k ::
        k in KeepMap(lt, newer, m, limit) <==> k in m && KeyOf(m[k]) in Kept(lt, newer, KeysOf(m), limit)
    ensures forall k | k in KeepMap(lt, newer, m, limit) :: KeepMap(lt, newer, m, limit)[k] == m[k]
  {
  }

  /** Putting a window into an empty map gives back the entries it shows. */
  lemma {:induction false} PutShown(r: seq<Note>, m: map<string, Note>)
    requires Identified(m) && forall n | n in r :: n in m.Values
    ensures forall k :: k in PutAll(r) <==> k in m && m[k] in r
    ensures forall k | k in PutAll(r) :: PutAll(r)[k] == m[k]
  {
    hide Identity;
    if r != [] {
      var rest, n := r[..|r| - 1], r[|r| - 1];
      assert r == rest + [n];
      PutShown(rest, m);
      assert n in m.Values;
      var k :| k in m && m[k] == n;
    }
  }

  lemma PutWindow(m: map<string, Note>, newer: bool, limit: nat, lt: (string, string) -> bool)
    requires TotalOrder(lt) && Identified(m) && limit >= 1
    ensures PutAll(WindowOf(m, newer, limit, lt)) == KeepMap(lt, newer, m, limit)
  {
    hide Kept, KeysOf, WindowOf, PutAll, NoteLess;
    WindowShows(m, newer, limit, lt);
    var r := WindowOf(m, newer, limit, lt);
    var kept := KeepMap(lt, newer, m, limit);
    assert forall n :: n in r <==> n in Elements(r);
    PutShown(r, kept);
    assert forall k | k in kept :: kept[k] in kept.Values;
  }

  lemma SameKeptSameWindow(p: map<string, Note>, q: map<string, Note>, newer: bool, limit: nat,
        lt: (string, string) -> bool)
    requires TotalOrder(lt) && Identified(p) && Identified(q) && limit >= 1
    requires KeepMap(lt, newer, p, limit) == KeepMap(lt, newer, q, limit)
    ensures WindowOf(p, newer, limit, lt) == WindowOf(q, newer, limit, lt)
  {
    hide *;
    WindowShows(p, newer, limit, lt);
    WindowShows(q, newer, limit, lt);
    KeyLessTotal(lt);
    AscendingUnique(WindowOf(p, newer, limit, lt), WindowOf(q, newer, limit, lt), NoteLess(lt));
  }

  lemma {:induction false} SameWindowExactly(p: map<string, Note>, q: map<string, Note>, newer: bool, limit: nat,
        lt: (string, string) -> bool)
    requires TotalOrder(lt) && Identified(p) && Identified(q) && limit >= 1
    ensures WindowOf(p, newer, limit, lt) == WindowOf(q, newer, limit, lt)
       <==> KeepMap(lt, newer, p, limit) == KeepMap(lt, newer, q, limit)
  {
    hide *;
    PutWindow(p, newer, limit, lt);
    PutWindow(q, newer, limit, lt);
    if KeepMap(lt, newer, p, limit) == KeepMap(lt, newer, q, limit) {
      SameKeptSameWindow(p, q, newer, limit, lt);
    }
  }

  /** STREAMING. Merging batch `a` and then batch `b` gives the same window as merging them at once, the
      same records in the same order, if and only if no message that the first window dropped comes
      back into the last one without `b` carrying it in full. */
  lemma {:induction false} StreamingExactly(existing: seq<Note>, a: seq<Note>, b: seq<Note>, newer: bool, limit: nat,
        lt: (string, string) -> bool)
    requires TotalOrder(lt) && limit >= 1
    ensures MergeWindow(MergeWindow(existing, a, newer, limit, lt), b, newer, limit, lt)
         == MergeWindow(existing, a + b, newer, limit, lt)
       <==> NothingReturns(lt, newer, SpreadAll(PutAll(existing), a), b, limit)
  {
    hide WindowOf, PutAll, SpreadAll, KeepMap, TotalOrder, Identity, NothingReturns, Identified;
    var m := SpreadAll(PutAll(existing), a);
    PutIdentified(existing);
    SpreadIdentified(PutAll(existing), a);
    PutWindow(m, newer, limit, lt);
    SpreadConcat(PutAll(existing), a, b);
    var r := MergeWindow(existing, a, newer, limit, lt);
    PutIdentified(r);
    SpreadIdentified(PutAll(r), b);
    SpreadIdentified(m, b);
    SameWindowExactly(SpreadAll(PutAll(r), b), SpreadAll(m, b), newer, limit, lt);
    StreamedExactly(lt, newer, m, b, limit);
  }

  /** So it is the same whenever no message changes its timestamp: what was dropped stays dropped. */
  lemma {:induction false} StreamingIsBatch(existing: seq<Note>, a: seq<Note>, b: seq<Note>, newer: bool, limit: nat,
        lt: (string, string) -> bool)
    requires TotalOrder(lt) && limit >= 1 && Stable(existing + a + b)
    ensures MergeWindow(MergeWindow(existing, a, newer, limit, lt), b, newer, limit, lt)
         == MergeWindow(existing, a + b, newer, limit, lt)
  {
    hide MergeWindow, PutAll, SpreadAll, KeepMap, TotalOrder, Stable, Identity;
    StreamingExactly(existing, a, b, newer, limit, lt);
    var stamp := StableStamped(existing + a + b);
    assert forall n | n in existing || n in a || n in b :: n in existing + a + b;
    PutStamped(existing, stamp);
    SpreadStamped(PutAll(existing), a, stamp);
    var m := SpreadAll(PutAll(existing), a);
    SpreadStamped(m, b, stamp);
    forall k ensures !Missed(lt, newer, m, b, limit, k) {
      StaysDropped(lt, newer, m, b, limit, k, stamp);
    }
  }

  lemma {:induction false} StaysDropped(lt: (string, string) -> bool, newer: bool, m: map<string, Note>, b: seq<Note>,
        limit: nat, k: string, stamp: string -> int)
    requires MapStamped(m, stamp) && MapStamped(SpreadAll(m, b), stamp) && KeysOf(m) <= KeysOf(SpreadAll(m, b))
    ensures !Missed(lt, newer, m, b, limit, k)
  {
    MissedIs(lt, newer, m, b, limit, k);
    hide Kept, MapStamped, KeysOf, SpreadAll, Missed;
    var q := SpreadAll(m, b);
    if k in m && k in q && k !in KeepMap(lt, newer, m, limit) {
      DroppedEntry(lt, newer, m, q, limit, k, stamp);
    }
  }

  lemma {:induction false} SpreadConcat(m: map<string, Note>, a: seq<Note>, b: seq<Note>)
    ensures SpreadAll(m, a + b) == SpreadAll(SpreadAll(m, a), b)
  {
    if b == [] {
      assert a + b == a;
    } else {
      assert (a + b)[..|a + b| - 1] == a + b[..|b| - 1];
      SpreadConcat(m, a, b[..|b| - 1]);
    }
  }

  /** The window shows the `limit` newest, or oldest, messages of both lists, each once, ascending by
      timestamp and then ID. */
  lemma WindowOfUnion(existing: seq<Note>, incoming: seq<Note>, newer: bool, limit: nat, lt: (string, string) -> bool)
    requires TotalOrder(lt) && limit >= 1 && Stable(existing + incoming)
    ensures var r := MergeWindow(existing, incoming, newer, limit, lt);
      && Ascending(r, NoteLess(lt))
      && KeysIn(r) == Kept(lt, newer, KeysIn(existing) + KeysIn(incoming), limit)
      && (forall i, j | 0 <= i < j < |r| :: Identity(r[i]) != Identity(r[j]))
  {
    hide WindowOf, PutAll, SpreadAll, KeepMap, TotalOrder, Stable, Identity, NoteLess, Kept, KeysOf, KeysIn;
    var stamp := StableStamped(existing + incoming);
    assert forall n | n in existing || n in incoming :: n in existing + incoming;
    PutStamped(existing, stamp);
    SpreadStamped(PutAll(existing), incoming, stamp);
    var m := SpreadAll(PutAll(existing), incoming);
    var r := MergeWindow(existing, incoming, newer, limit, lt);
    WindowShows(m, newer, limit, lt);
    KeepMapKeys(lt, newer, m, limit);
    ValuesKeys(r, KeepMap(lt, newer, m, limit));
    KeyLessTotal(lt);
    AscendingDistinct(r, NoteLess(lt));
    KeepMapEntries(lt, newer, m, limit);
    DistinctIdentities(r, KeepMap(lt, newer, m, limit));
  }

  lemma ValuesKeys(r: seq<Note>, m: map<string, Note>)
    requires Elements(r) == m.Values
    ensures KeysIn(r) == KeysOf(m)
  {
    forall x ensures x in KeysIn(r) <==> x in KeysOf(m) {
      if x in KeysIn(r) {
        var n :| n in r && KeyOf(n) == x;
        assert n in Elements(r);
        var k :| k in m && m[k] == n;
      }
      if x in KeysOf(m) {
        var k :| k in m && KeyOf(m[k]) == x;
        assert m[k] in m.Values;
        assert m[k] in r;
      }
    }
  }

  lemma DistinctIdentities(r: seq<Note>, m: map<string, Note>)
    requires Distinct(r) && Elements(r) == m.Values && Identified(m)
    ensures forall i, j | 0 <= i < j < |r| :: Identity(r[i]) != Identity(r[j])
  {
    hide Identity;
    forall i, j | 0 <= i < j < |r| ensures Identity(r[i]) != Identity(r[j]) {
      assert r[i] in Elements(r) && r[j] in Elements(r);
      var k :| k in m && m[k] == r[i];
      var l :| l in m && m[l] == r[j];
    }
  }

  lemma WindowFrom(m: map<string, Note>, s: seq<Note>, newer: bool, limit: nat, lt: (string, string) -> bool)
    requires TotalOrder(lt) && Identified(m) && Ascending(s, NoteLess(lt)) && Elements(s) == m.Values
    ensures WindowOf(m, newer, limit, lt) == Window(s, newer, limit)
  {
    hide *;
    var sorted := WindowSorts(m, newer, limit, lt);
    KeyLessTotal(lt);
    AscendingUnique(s, sorted, NoteLess(lt));
  }

  /** Of two entries, a window of one shows the newer. */
  lemma NewerOfTwo(lt: (string, string) -> bool, m: map<string, Note>, i: string, j: string)
    requires TotalOrder(lt) && Identified(m) && m.Keys == {i, j}
    requires i == j || m[i].timestamp < m[j].timestamp
    ensures WindowOf(m, true, 1, lt) == [m[j]]
  {
    hide *;
    ValuesOfTwo(m, i, j);
    AscendingTwo(m[i], m[j], lt);
    WindowFrom(m, if i == j then [m[j]] else [m[i], m[j]], true, 1, lt);
  }

  lemma AscendingTwo(x: Note, y: Note, lt: (string, string) -> bool)
    ensures Ascending([y], NoteLess(lt)) && Window([y], true, 1) == [y]
    ensures x.timestamp < y.timestamp ==> Ascending([x, y], NoteLess(lt)) && Window([x, y], true, 1) == [y]
  {
  }

  lemma ValuesOfTwo(m: map<string, Note>, i: string, j: string)
    requires m.Keys == {i, j}
    ensures Elements(if i == j then [m[j]] else [m[i], m[j]]) == m.Values
  {
    var s := if i == j then [m[j]] else [m[i], m[j]];
    assert i in m && j in m;
    assert m[i] in m.Values && m[j] in m.Values;
    forall n | n in m.Values ensures n in s {
      var k :| k in m && m[k] == n;
    }
  }

  lemma {:induction false} SpreadOne(m: map<string, Note>, n: Note)
    ensures SpreadAll(m, [n]) == m[Identity(n) := Spread(m, n)] && PutAll([n]) == map[Identity(n) := n]
  {
    hide Identity;
    assert [n][..0] == [];
  }

  /** With a changing timestamp the two ways can differ: a message that moved back in time leaves the
      window to one that had already been dropped. */
  lemma UnstableTimestampsDiffer(lt: (string, string) -> bool)
    requires TotalOrder(lt)
    ensures exists a, b: seq<Note> ::
      MergeWindow(MergeWindow([], a, true, 1, lt), b, true, 1, lt) != MergeWindow([], a + b, true, 1, lt)
  {
    var x, y, x' := Note("x", 5, map[]), Note("y", 2, map[]), Note("x", 1, map[]);
    var i, j := Identity(x), Identity(y);
    IdentityExact(x, y);
    IdentityExact(x, x');
    hide TotalOrder, WindowOf, Identity, SpreadAll, PutAll;
    assert PutAll([]) == map[] && SpreadAll(map[], []) == map[] by { EmptyMaps(); }
    SpreadOne(map[], x);
    SpreadOne(map[i := x], y);
    SpreadConcat(map[], [x], [y]);
    NewerOfTwo(lt, map[i := x, j := y], j, i);
    assert MergeWindow([], [x] + [y], true, 1, lt) == [x];
    SpreadOne(map[], x);
    SpreadOne(map[i := x], x');
    assert map[i := x][i := x'] == map[i := x'];
    NewerOfTwo(lt, map[i := x'], i, i);
    assert MergeWindow([x], [x'], true, 1, lt) == [x'];
    SpreadConcat(map[], [x] + [y], [x']);
    SpreadOne(map[i := x, j := y], x');
    assert map[i := x, j := y][i := x'] == map[i := x', j := y];
    NewerOfTwo(lt, map[i := x', j := y], i, j);
    assert MergeWindow([], [x] + [y] + [x'], true, 1, lt) == [y];
  }

  lemma EmptyMaps()
    ensures PutAll([]) == map[] && SpreadAll(map[], []) == map[]
  {
  }
}
