/** Sorting under a strict order. The repository sorts with library routines (`sort.Strings`,
    `sort.Slice`, `Array.prototype.sort`, SQL's ORDER BY); what its code relies on is that the
    ascending arrangement of a set of keys is unique. */
module Sorting {

  ghost predicate PartialOrder<T(!new)>(lt: (T, T) -> bool) {
    (forall x :: !lt(x, x)) &&
    (forall x, y, z :: lt(x, y) && lt(y, z) ==> lt(x, z))
  }

  ghost predicate TotalOrder<T(!new)>(lt: (T, T) -> bool) {
    PartialOrder(lt) && (forall x, y :: lt(x, y) || lt(y, x) || x == y)
  }

  predicate Ascending<T>(s: seq<T>, lt: (T, T) -> bool) {
    forall i, j | 0 <= i < j < |s| :: lt(s[i], s[j])
  }

  function Elements<T>(s: seq<T>): set<T> {
    set x | x in s
  }

  predicate Distinct<T(==)>(s: seq<T>) {
    forall i, j | 0 <= i < j < |s| :: s[i] != s[j]
  }

  function Insert<T>(x: T, s: seq<T>, lt: (T, T) -> bool): seq<T> {
    if s == [] || lt(x, s[0]) then [x] + s else [s[0]] + Insert(x, s[1..], lt)
  }

  /** A stable sort: equal elements keep their order. */
  function Sort<T>(s: seq<T>, lt: (T, T) -> bool): seq<T> {
    if s == [] then [] else Insert(s[|s| - 1], Sort(s[..|s| - 1], lt), lt)
  }

  ghost predicate Comparable<T>(s: set<T>, lt: (T, T) -> bool) {
    forall x, y | x in s && y in s && x != y :: lt(x, y) || lt(y, x)
  }

  lemma ElementsCons<T>(x: T, s: seq<T>)
    ensures Elements([x] + s) == {x} + Elements(s)
  {
  }

  lemma ConsAscending<T>(x: T, s: seq<T>, lt: (T, T) -> bool)
    requires Ascending(s, lt) && forall y | y in Elements(s) :: lt(x, y)
    ensures Ascending([x] + s, lt)
  {
    assert forall k | 0 <= k < |s| :: s[k] in Elements(s);
  }

  lemma {:induction false} InsertAscending<T(!new)>(x: T, s: seq<T>, lt: (T, T) -> bool)
    requires PartialOrder(lt) && Ascending(s, lt) && x !in s
    requires Comparable(Elements(s) + {x}, lt)
    ensures Ascending(Insert(x, s, lt), lt)
    ensures Elements(Insert(x, s, lt)) == Elements(s) + {x}
    ensures |Insert(x, s, lt)| == |s| + 1
  {
    if s == [] || lt(x, s[0]) {
      ElementsCons(x, s);
      assert forall y | y in Elements(s) :: y == s[0] || lt(s[0], y);
      ConsAscending(x, s, lt);
    } else {
      var t := s[1..];
      ElementsCons(s[0], t);
      assert s == [s[0]] + t;
      assert lt(s[0], x);
      InsertAscending(x, t, lt);
      var r := Insert(x, t, lt);
      ElementsCons(s[0], r);
      assert forall y | y in Elements(t) :: lt(s[0], y);
      ConsAscending(s[0], r, lt);
    }
  }

  lemma {:induction false} SortAscending<T(!new)>(s: seq<T>, lt: (T, T) -> bool)
    requires PartialOrder(lt) && Distinct(s) && Comparable(Elements(s), lt)
    ensures Ascending(Sort(s, lt), lt)
    ensures Elements(Sort(s, lt)) == Elements(s)
    ensures |Sort(s, lt)| == |s|
  {
    if s != [] {
      var t := s[..|s| - 1];
      assert s == t + [s[|s| - 1]];
      assert Elements(s) == Elements(t) + {s[|s| - 1]};
      SortAscending(t, lt);
      assert s[|s| - 1] !in Elements(t);
      InsertAscending(s[|s| - 1], Sort(t, lt), lt);
    }
  }

  lemma EmptyElements<T>(s: seq<T>)
    ensures s == [] <==> Elements(s) == {}
  {
    if s != [] { assert s[0] in Elements(s); }
  }

  /** There is only one ascending arrangement of a set. */
  lemma {:induction false} AscendingUnique<T(!new)>(s: seq<T>, t: seq<T>, lt: (T, T) -> bool)
    requires PartialOrder(lt) && Ascending(s, lt) && Ascending(t, lt)
    requires Elements(s) == Elements(t)
    ensures s == t
  {
    EmptyElements(s);
    EmptyElements(t);
    if s != [] {
      assert s[0] in Elements(t) && t[0] in Elements(s);
      assert s[0] == t[0];
      forall x ensures x in s[1..] <==> x in t[1..] {
        assert x in s[1..] ==> x in Elements(t) && x != t[0];
        assert x in t[1..] ==> x in Elements(s) && x != s[0];
      }
      assert Elements(s[1..]) == Elements(t[1..]);
      AscendingUnique(s[1..], t[1..], lt);
      assert s == [s[0]] + s[1..] && t == [t[0]] + t[1..];
    }
  }

  lemma AscendingDistinct<T(!new)>(s: seq<T>, lt: (T, T) -> bool)
    requires PartialOrder(lt) && Ascending(s, lt)
    ensures Distinct(s) && |s| == |Elements(s)|
  {
    DistinctSize(s);
  }

  lemma {:induction false} DistinctSize<T>(s: seq<T>)
    requires Distinct(s)
    ensures |Elements(s)| == |s|
  {
    if s != [] {
      DistinctSize(s[1..]);
      assert Elements(s) == {s[0]} + Elements(s[1..]);
    }
  }

  lemma ConsDistinct<T>(x: T, s: seq<T>)
    requires Distinct(s) && x !in Elements(s)
    ensures Distinct([x] + s) && Elements([x] + s) == {x} + Elements(s)
  {
    forall i | 0 <= i < |s| ensures s[i] != x {
      assert s[i] in Elements(s);
    }
  }

  /** The elements of a finite set in some order. */
  ghost function Enumerate<T>(s: set<T>): (r: seq<T>)
    ensures Distinct(r) && Elements(r) == s && |r| == |s|
  {
    if s == {} then [] else
      var x :| x in s;
      var r := Enumerate(s - {x});
      ConsDistinct(x, r);
      [x] + r
  }

  /** The ascending arrangement of a finite set. */
  ghost function SortSet<T(!new)>(s: set<T>, lt: (T, T) -> bool): (r: seq<T>)
    requires PartialOrder(lt) && Comparable(s, lt)
    ensures Ascending(r, lt) && Elements(r) == s && |r| == |s|
  {
    SortAscending(Enumerate(s), lt);
    Sort(Enumerate(s), lt)
  }

  /** Any ascending sequence is the sorted form of its own elements. */
  lemma SortSetUnique<T(!new)>(t: seq<T>, lt: (T, T) -> bool)
    requires TotalOrder(lt) && Ascending(t, lt)
    ensures SortSet(Elements(t), lt) == t
  {
    AscendingUnique(SortSet(Elements(t), lt), t, lt);
  }

  lemma AppendDistinct<T>(s: seq<T>, x: T)
    requires Distinct(s) && x !in Elements(s)
    ensures Distinct(s + [x]) && Elements(s + [x]) == Elements(s) + {x}
  {
    forall i | 0 <= i < |s| ensures s[i] != x {
      assert s[i] in Elements(s);
    }
  }

  /** Ranging over a map or set: every element once, in no particular order. */
  method Collect<T(==)>(s: set<T>) returns (r: seq<T>)
    ensures Distinct(r) && Elements(r) == s
  {
    r := [];
    var pending := s;
    while pending != {}
      invariant pending <= s && Distinct(r) && Elements(r) == s - pending
      decreases pending
    {
      var x :| x in pending;
      AppendDistinct(r, x);
      pending := pending - {x};
      r := r + [x];
    }
  }

  /** A query with ORDER BY: the rows' keys in ascending order. */
  method SortedElements<T(==,!new)>(s: set<T>, lt: (T, T) -> bool) returns (r: seq<T>)
    requires TotalOrder(lt)
    ensures Ascending(r, lt) && Elements(r) == s && r == SortSet(s, lt)
  {
    var collected := Collect(s);
    SortAscending(collected, lt);
    r := Sort(collected, lt);
    SortSetUnique(r, lt);
  }
}
