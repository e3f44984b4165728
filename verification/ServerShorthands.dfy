/** `createServerShorthand` and `ensureServerShorthands` (src/utils/serverRegistry.ts). Case mapping and
    whitespace depend on the locale and are a parameter with stated laws. */
module ServerShorthands {
  import opened Text
  import opened ServerRegistry

  /** Character-wise case mapping and whitespace. */
  datatype Locale = Locale(upper: char -> string, lower: char -> string, space: char -> bool) {

    /** Whitespace is its own upper case and nothing else becomes whitespace; mappings are never
        empty; digits are their own lower case; 'S' and digits are not whitespace. */
    ghost predicate Lawful() {
      && (forall c :: space(c) ==> upper(c) == [c])
      && (forall c :: !space(c) ==> upper(c) != "" && forall d | d in upper(c) :: !space(d))
      && (forall c :: lower(c) != "")
      && (forall c | IsDigit(c) :: lower(c) == [c] && !space(c))
      && !space('S')
    }

    function Upper(s: string): string {
      if s == "" then "" else Upper(s[..|s| - 1]) + upper(s[|s| - 1])
    }

    function Lower(s: string): string {
      if s == "" then "" else Lower(s[..|s| - 1]) + lower(s[|s| - 1])
    }

    function TrimText(s: string): string {
      Trim(s, space)
    }
  }

  // ---- candidates ----

  function First(loc: Locale, chars: string): string {
    if chars == "" then loc.Upper("S") else loc.Upper(chars[..1])
  }

  function FirstTwo(loc: Locale, chars: string): string {
    Or(loc.Upper(chars[..if |chars| < 2 then |chars| else 2]), First(loc, chars))
  }

  function WithSuffix(base: string, from: int, to: int): seq<string> {
    seq(if from <= to then to - from + 1 else 0, i => base + Decimal(from + i))
  }

  /** Upper-cased prefixes of lengths `from` to `to`. */
  function Prefixes(loc: Locale, chars: string, from: nat, to: int): seq<string>
    requires to <= |chars|
  {
    seq(if from <= to then to - from + 1 else 0, i requires 0 <= i <= to - from => loc.Upper(chars[..from + i]))
  }

  /** All candidates before the fallback, in the order they are tried. */
  function Candidates(loc: Locale, chars: string, ordinal: int): seq<string> {
    [First(loc, chars), FirstTwo(loc, chars)]
    + WithSuffix(First(loc, chars), ordinal, 9)
    + WithSuffix(FirstTwo(loc, chars), ordinal, 9)
    + Prefixes(loc, chars, 3, |chars|)
  }

  predicate IsUsed(loc: Locale, candidate: string, used: set<string>) {
    loc.Lower(candidate) in used
  }

  /** Index of the first unused candidate, or the length. */
  function FirstUnused(loc: Locale, cs: seq<string>, used: set<string>): (i: nat)
    ensures i <= |cs| && (i < |cs| ==> !IsUsed(loc, cs[i], used)) && forall j | 0 <= j < i :: IsUsed(loc, cs[j], used)
  {
    if cs == [] || !IsUsed(loc, cs[0], used) then 0 else 1 + FirstUnused(loc, cs[1..], used)
  }

  /** The first unused number from `start` on. */
  ghost predicate IsFallback(loc: Locale, base: string, start: int, used: set<string>, n: int) {
    start <= n && !IsUsed(loc, base + Decimal(n), used) && forall k | start <= k < n ::
        IsUsed(loc, base + Decimal(k), used)
  }

  // ---- numbered candidates never run out ----

  lemma {:induction false} LowerConcat(loc: Locale, s: string, t: string)
    ensures loc.Lower(s + t) == loc.Lower(s) + loc.Lower(t)
  {
    if t == "" {
      assert s + t == s;
    } else {
      assert (s + t)[..|s + t| - 1] == s + t[..|t| - 1];
      LowerConcat(loc, s, t[..|t| - 1]);
    }
  }

  lemma {:induction false} LowerDigits(loc: Locale, s: string)
    requires loc.Lawful() && forall c | c in s :: IsDigit(c)
    ensures loc.Lower(s) == s
  {
    if s != "" {
      LowerDigits(loc, s[..|s| - 1]);
      assert s == s[..|s| - 1] + [s[|s| - 1]];
    }
  }

  lemma {:induction false} NumberedDistinct(loc: Locale, base: string, m: nat, n: nat)
    requires loc.Lawful() && loc.Lower(base + Decimal(m)) == loc.Lower(base + Decimal(n))
    ensures m == n
  {
    LowerConcat(loc, base, Decimal(m));
    LowerConcat(loc, base, Decimal(n));
    DigitsRoundTrip(m);
    DigitsRoundTrip(n);
    LowerDigits(loc, Decimal(m));
    LowerDigits(loc, Decimal(n));
    var p := loc.Lower(base);
    assert Decimal(m) == (p + Decimal(m))[|p|..] && Decimal(n) == (p + Decimal(n))[|p|..];
  }

  /** Pigeonhole: as many used numbers in a row as there are used shorthands, at most. */
  lemma {:induction false} Pigeonhole(loc: Locale, base: string, start: nat, end: int, used: set<string>)
    requires loc.Lawful() && start <= end && forall k | start <= k < end :: IsUsed(loc, base + Decimal(k), used)
    ensures end - start <= |used|
    decreases end - start
  {
    if start < end {
      var key := loc.Lower(base + Decimal(end - 1));
      forall k | start <= k < end - 1 ensures IsUsed(loc, base + Decimal(k), used - {key}) {
        if loc.Lower(base + Decimal(k)) == key {
          NumberedDistinct(loc, base, k, end - 1);
        }
      }
      Pigeonhole(loc, base, start, end - 1, used - {key});
    }
  }

  lemma FallbackExists(loc: Locale, base: string, start: nat, used: set<string>) returns (n: int)
    requires loc.Lawful()
    ensures IsFallback(loc, base, start, used, n) && n - start <= |used|
  {
    n := start;
    while IsUsed(loc, base + Decimal(n), used)
      invariant start <= n && forall k | start <= k < n :: IsUsed(loc, base + Decimal(k), used)
      decreases |used| - (n - start)
    {
      Pigeonhole(loc, base, start, n + 1, used);
      n := n + 1;
    }
    Pigeonhole(loc, base, start, n, used);
  }

  ghost function Fallback(loc: Locale, base: string, start: nat, used: set<string>): (n: int)
    requires loc.Lawful()
    ensures IsFallback(loc, base, start, used, n)
  {
    assert exists n :: IsFallback(loc, base, start, used, n) by {
      var n := FallbackExists(loc, base, start, used);
    }
    var n :| IsFallback(loc, base, start, used, n);
    n
  }

  // ---- one shorthand ----

  /** Lower-cased shorthands in use. */
  function Used(loc: Locale, existing: seq<Membership>): set<string> {
    set e | e in existing && loc.Lower(e.shorthand) != "" :: loc.Lower(e.shorthand)
  }

  function NormalizedLabel(loc: Locale, s: string): string {
    loc.Lower(loc.TrimText(s))
  }

  function SameNameCount(loc: Locale, existing: seq<Membership>, serverLabel: string): nat {
    if existing == [] then 0
    else SameNameCount(loc, existing[..|existing| - 1], serverLabel)
         + if NormalizedLabel(loc, existing[|existing| - 1].serverLabel) == NormalizedLabel(loc, serverLabel) then 1
             else 0
  }

  /** The first unused candidate, or the numbered fallback. */
  ghost function Shorthand(loc: Locale, serverLabel: string, existing: seq<Membership>): string
    requires loc.Lawful()
  {
    var chars := loc.TrimText(serverLabel);
    var ordinal := SameNameCount(loc, existing, serverLabel) + 1;
    var used := Used(loc, existing);
    var cs := Candidates(loc, chars, ordinal);
    var i := FirstUnused(loc, cs, used);
    if i < |cs| then cs[i]
    else FirstTwo(loc, chars) + Decimal(Fallback(loc, FirstTwo(loc, chars), ordinal, used))
  }

  // ---- the search ----

  /** `found` and `candidate` are what trying `cs` in order gives. */
  predicate Outcome(loc: Locale, cs: seq<string>, used: set<string>, found: bool, candidate: string) {
    var i := FirstUnused(loc, cs, used);
    (found <==> i < |cs|) && (found ==> candidate == cs[i])
  }

  lemma {:induction false} FirstUnusedConcat(loc: Locale, a: seq<string>, b: seq<string>, used: set<string>)
    ensures var i := FirstUnused(loc, a, used);
      FirstUnused(loc, a + b, used) == if i < |a| then i else |a| + FirstUnused(loc, b, used)
  {
    if a == [] {
      assert a + b == b;
    } else {
      assert (a + b)[1..] == a[1..] + b;
      FirstUnusedConcat(loc, a[1..], b, used);
    }
  }

  /** Tests one candidate after those of `tried`; `rest` would follow. */
  method Try(loc: Locale, ghost tried: seq<string>, candidate: string, ghost rest: seq<string>, used: set<string>)
    returns (found: bool)
    requires Outcome(loc, tried, used, false, "")
    ensures found ==> Outcome(loc, tried + [candidate] + rest, used, true, candidate)
    ensures !found ==> Outcome(loc, tried + [candidate], used, false, "")
  {
    found := loc.Lower(candidate) !in used;
    FirstUnusedConcat(loc, tried, [candidate], used);
    FirstUnusedConcat(loc, tried + [candidate], rest, used);
  }

  lemma SuffixesSplit(base: string, from: int, at: int)
    requires from <= at <= 9
    ensures WithSuffix(base, from, at - 1) + [base + Decimal(at)] == WithSuffix(base, from, at)
    ensures WithSuffix(base, from, at) + WithSuffix(base, at + 1, 9) == WithSuffix(base, from, 9)
  {
  }

  /** A loop over numbered candidates up to 9. */
  method TrySuffixes(loc: Locale, base: string, ordinal: nat, used: set<string>)
    returns (found: bool, candidate: string)
    ensures Outcome(loc, WithSuffix(base, ordinal, 9), used, found, candidate)
  {
    candidate := "";
    assert WithSuffix(base, ordinal, ordinal - 1) == [];
    var suffix: int := ordinal;
    while suffix <= 9
      invariant ordinal <= suffix && (if ordinal <= 9 then suffix <= 10 else suffix == ordinal)
      invariant Outcome(loc, WithSuffix(base, ordinal, suffix - 1), used, false, "")
    {
      hide WithSuffix, FirstUnused;
      candidate := base + Decimal(suffix);
      SuffixesSplit(base, ordinal, suffix);
      found := Try(loc, WithSuffix(base, ordinal, suffix - 1), candidate, WithSuffix(base, suffix + 1, 9), used);
      if found {
        return;
      }
      suffix := suffix + 1;
    }
    assert WithSuffix(base, ordinal, suffix - 1) == WithSuffix(base, ordinal, 9);
    found := false;
  }

  lemma {:induction false} PrefixesSplit(loc: Locale, chars: string, from: nat, at: nat)
    requires from <= at <= |chars|
    ensures Prefixes(loc, chars, from, at - 1) + [loc.Upper(chars[..at])] == Prefixes(loc, chars, from, at)
    ensures Prefixes(loc, chars, from, at) + Prefixes(loc, chars, at + 1, |chars|) ==
        Prefixes(loc, chars, from, |chars|)
  {
  }

  /** The loop over prefixes of at least three characters. */
  method TryPrefixes(loc: Locale, characters: string, used: set<string>) returns (found: bool, candidate: string)
    ensures Outcome(loc, Prefixes(loc, characters, 3, |characters|), used, found, candidate)
  {
    candidate := "";
    var length := 3;
    while length <= |characters|
      invariant 3 <= length && (|characters| >= 3 ==> length <= |characters| + 1)
      invariant length - 1 <= |characters| ==> Outcome(loc, Prefixes(loc, characters, 3, length - 1), used, false, "")
    {
      hide Prefixes, FirstUnused;
      candidate := loc.Upper(characters[..length]);
      PrefixesSplit(loc, characters, 3, length);
      found := Try(loc, Prefixes(loc, characters, 3, length - 1), candidate,
                   Prefixes(loc, characters, length + 1, |characters|), used);
      if found {
        return;
      }
      length := length + 1;
    }
    assert length - 1 > |characters| ==> Prefixes(loc, characters, 3, |characters|) == [];
    found := false;
  }

  /** `b` is tried after `a`. */
  lemma TriedAfter(loc: Locale, a: seq<string>, b: seq<string>, used: set<string>, found: bool, candidate: string)
    requires Outcome(loc, a, used, false, "") && Outcome(loc, b, used, found, candidate)
    ensures Outcome(loc, a + b, used, found, candidate)
  {
    FirstUnusedConcat(loc, a, b, used);
  }

  lemma FoundBefore(loc: Locale, a: seq<string>, b: seq<string>, used: set<string>, candidate: string)
    requires Outcome(loc, a, used, true, candidate)
    ensures Outcome(loc, a + b, used, true, candidate)
  {
    FirstUnusedConcat(loc, a, b, used);
  }

  /** The loop over the one- and two-character candidates. */
  method TryShort(loc: Locale, first: string, firstTwo: string, used: set<string>)
    returns (found: bool, candidate: string)
    ensures Outcome(loc, [first, firstTwo], used, found, candidate)
  {
    hide FirstUnused;
    var short := [first, firstTwo];
    candidate := "";
    assert Outcome(loc, [], used, false, "") by { assert FirstUnused(loc, [], used) <= 0; }
    for i := 0 to 2
      invariant Outcome(loc, short[..i], used, false, "")
    {
      candidate := short[i];
      assert short[..i] + [candidate] == short[..i + 1] && short[..i + 1] + short[i + 1..] == short;
      found := Try(loc, short[..i], candidate, short[i + 1..], used);
      if found {
        return;
      }
    }
    assert short[..2] == short;
    found := false;
  }

  /** The first unused of the candidates, if there is one. */
  method TryCandidates(loc: Locale, characters: string, first: string, firstTwo: string, ordinal: nat,
        used: set<string>)
    returns (found: bool, candidate: string)
    requires first == First(loc, characters) && firstTwo == FirstTwo(loc, characters)
    ensures Outcome(loc, Candidates(loc, characters, ordinal), used, found, candidate)
  {
    hide Outcome, WithSuffix, Prefixes, FirstUnused, First, FirstTwo;
    ghost var a, b, c, d := [first, firstTwo], WithSuffix(first, ordinal, 9), WithSuffix(firstTwo, ordinal, 9),
      Prefixes(loc, characters, 3, |characters|);
    found, candidate := TryShort(loc, first, firstTwo, used);
    if found {
      FoundBefore(loc, a, b, used, candidate);
      FoundBefore(loc, a + b, c, used, candidate);
      FoundBefore(loc, a + b + c, d, used, candidate);
      return;
    }
    Unfound(loc, a, used, candidate);
    found, candidate := TrySuffixes(loc, first, ordinal, used);
    TriedAfter(loc, a, b, used, found, candidate);
    if found {
      FoundBefore(loc, a + b, c, used, candidate);
      FoundBefore(loc, a + b + c, d, used, candidate);
      return;
    }
    Unfound(loc, a + b, used, candidate);
    found, candidate := TrySuffixes(loc, firstTwo, ordinal, used);
    TriedAfter(loc, a + b, c, used, found, candidate);
    if found {
      FoundBefore(loc, a + b + c, d, used, candidate);
      return;
    }
    Unfound(loc, a + b + c, used, candidate);
    found, candidate := TryPrefixes(loc, characters, used);
    TriedAfter(loc, a + b + c, d, used, found, candidate);
  }

  lemma Unfound(loc: Locale, cs: seq<string>, used: set<string>, candidate: string)
    requires Outcome(loc, cs, used, false, candidate)
    ensures Outcome(loc, cs, used, false, "")
  {
  }

  lemma FallbackUnique(loc: Locale, base: string, start: nat, used: set<string>, n: int)
    requires loc.Lawful() && IsFallback(loc, base, start, used, n)
    ensures n == Fallback(loc, base, start, used)
  {
    var f := Fallback(loc, base, start, used);
    assert f < n ==> IsUsed(loc, base + Decimal(f), used);
    assert n < f ==> IsUsed(loc, base + Decimal(n), used);
  }

  /** The `while` loop: terminates by pigeonhole. */
  method FallbackLoop(loc: Locale, firstTwo: string, ordinal: nat, used: set<string>) returns (fallback: string)
    requires loc.Lawful() && ordinal >= 1
    ensures fallback == firstTwo + Decimal(Fallback(loc, firstTwo, ordinal, used))
  {
    hide Decimal;
    var fallbackOrdinal := if ordinal < 1 then 1 else ordinal;
    fallback := firstTwo + Decimal(fallbackOrdinal);
    while loc.Lower(fallback) in used
      invariant ordinal <= fallbackOrdinal && fallback == firstTwo + Decimal(fallbackOrdinal)
      invariant forall k | ordinal <= k < fallbackOrdinal :: IsUsed(loc, firstTwo + Decimal(k), used)
      decreases |used| - (fallbackOrdinal - ordinal)
    {
      Pigeonhole(loc, firstTwo, ordinal, fallbackOrdinal + 1, used);
      fallbackOrdinal := fallbackOrdinal + 1;
      fallback := firstTwo + Decimal(fallbackOrdinal);
    }
    FallbackUnique(loc, firstTwo, ordinal, used, fallbackOrdinal);
  }

  method CreateServerShorthand(loc: Locale, membership: Membership, existing: seq<Membership>) returns (r: string)
    requires loc.Lawful()
    ensures r == Shorthand(loc, membership.serverLabel, existing)
  {
    hide Candidates, FirstUnused, First, FirstTwo, IsUsed, SameNameCount, Used, Fallback, Decimal;
    var characters := loc.TrimText(membership.serverLabel);
    var first := First(loc, characters);
    var firstTwo := FirstTwo(loc, characters);
    var used := Used(loc, existing);
    var ordinal := SameNameCount(loc, existing, membership.serverLabel) + 1;
    var found, candidate := TryCandidates(loc, characters, first, firstTwo, ordinal, used);
    if found {
      return candidate;
    }
    r := FallbackLoop(loc, firstTwo, ordinal, used);
  }

  /** The numbered fallback is found within one more step than there are used shorthands. */
  lemma FallbackWithin(loc: Locale, base: string, start: nat, used: set<string>)
    requires loc.Lawful()
    ensures start <= Fallback(loc, base, start, used) <= start + |used|
  {
    Pigeonhole(loc, base, start, Fallback(loc, base, start, used), used);
  }

  // ---- all shorthands ----

  ghost function AssignOne(loc: Locale, m: Membership, given: seq<Membership>): Membership
    requires loc.Lawful()
  {
    var own := loc.TrimText(m.shorthand);
    m.(shorthand := if own != "" && !IsUsed(loc, own, Used(loc, given)) then own
                    else Shorthand(loc, m.serverLabel, given))
  }

  ghost function Assign(loc: Locale, ms: seq<Membership>): seq<Membership>
    requires loc.Lawful()
  {
    if ms == [] then [] else
      var given := Assign(loc, ms[..|ms| - 1]);
      given + [AssignOne(loc, ms[|ms| - 1], given)]
  }

  lemma {:induction false} MappedNonEmpty(loc: Locale, s: string)
    requires loc.Lawful() && s != ""
    ensures loc.Lower(s) != "" && loc.Upper(s) != ""
  {
    var c := s[|s| - 1];
    assert loc.lower(c) != "" && loc.upper(c) != "";
  }

  /** A non-empty candidate is used if some entry has it ignoring case. */
  lemma {:induction false} UsedBy(loc: Locale, existing: seq<Membership>, candidate: string)
    requires loc.Lawful() && candidate != ""
    ensures IsUsed(loc, candidate, Used(loc, existing))
            <==> exists i :: 0 <= i < |existing| && loc.Lower(existing[i].shorthand) == loc.Lower(candidate)
  {
    MappedNonEmpty(loc, candidate);
  }

  lemma {:induction false} AssignNone(loc: Locale, ms: seq<Membership>)
    requires loc.Lawful()
    ensures Assign(loc, ms[..0]) == []
  {
  }

  lemma {:induction false} AssignNext(loc: Locale, ms: seq<Membership>, i: nat)
    requires loc.Lawful() && i < |ms|
    ensures Assign(loc, ms[..i + 1]) == Assign(loc, ms[..i]) + [AssignOne(loc, ms[i], Assign(loc, ms[..i]))]
  {
    assert ms[..i + 1][..i] == ms[..i];
  }

  method EnsureServerShorthands(loc: Locale, memberships: seq<Membership>) returns (given: seq<Membership>)
    requires loc.Lawful()
    ensures given == Assign(loc, memberships)
  {
    hide Shorthand, IsUsed, Used, Assign;
    given := [];
    AssignNone(loc, memberships);
    for i := 0 to |memberships|
      invariant given == Assign(loc, memberships[..i])
    {
      AssignNext(loc, memberships, i);
      var membership := memberships[i];
      var shorthand := loc.TrimText(membership.shorthand);
      var used := exists e | e in given :: loc.Lower(e.shorthand) == loc.Lower(shorthand);
      if shorthand != "" { UsedBy(loc, given, shorthand); }
      if shorthand == "" || used {
        var created := CreateServerShorthand(loc, membership, given);
        given := given + [membership.(shorthand := created)];
      } else {
        given := given + [membership.(shorthand := shorthand)];
      }
    }
    assert memberships[..|memberships|] == memberships;
  }

  // ---- what is assigned ----

  /** Characters that name the first candidate. */
  function Initials(chars: string): string {
    if chars == "" then "S" else chars
  }

  lemma {:induction false} ShortForms(loc: Locale, chars: string)
    requires loc.Lawful()
    ensures First(loc, chars) == loc.Upper(Initials(chars)[..1]) != ""
    ensures FirstTwo(loc, chars) ==
        loc.Upper(Initials(chars)[..if |Initials(chars)| < 2 then |Initials(chars)| else 2]) != ""
  {
    var s := Initials(chars);
    assert "S"[..1] == "S";
    MappedNonEmpty(loc, s[..1]);
    MappedNonEmpty(loc, s[..if |s| < 2 then |s| else 2]);
  }

  lemma {:induction false} CandidateAt(loc: Locale, chars: string, ordinal: nat, i: nat)
    requires i < |Candidates(loc, chars, ordinal)|
    ensures var cs := Candidates(loc, chars, ordinal);
      var w := |WithSuffix(First(loc, chars), ordinal, 9)|;
      && |cs| == 2 + w + w + (if |chars| >= 3 then |chars| - 2 else 0)
      && cs[i] == if i == 0 then First(loc, chars)
                  else if i == 1 then FirstTwo(loc, chars)
                  else if i < 2 + w then First(loc, chars) + Decimal(ordinal + i - 2)
                  else if i < 2 + w + w then FirstTwo(loc, chars) + Decimal(ordinal + i - 2 - w)
                  else loc.Upper(chars[..3 + (i - 2 - w - w)])
  {
    hide First, FirstTwo, Decimal;
  }

  lemma CandidateNonEmpty(loc: Locale, chars: string, ordinal: nat, i: nat)
    requires loc.Lawful() && i < |Candidates(loc, chars, ordinal)|
    ensures Candidates(loc, chars, ordinal)[i] != ""
  {
    hide First, FirstTwo, Decimal, Candidates, WithSuffix;
    ShortForms(loc, chars);
    CandidateAt(loc, chars, ordinal, i);
    var n := |WithSuffix(First(loc, chars), ordinal, 9)|;
    if i >= 2 + n + n {
      MappedNonEmpty(loc, chars[..3 + (i - 2 - n - n)]);
    }
  }

  /** A created shorthand is not empty and not in use. */
  lemma ShorthandFresh(loc: Locale, serverLabel: string, existing: seq<Membership>)
    requires loc.Lawful()
    ensures var r := Shorthand(loc, serverLabel, existing);
      r != "" && !IsUsed(loc, r, Used(loc, existing))
  {
    hide Candidates, FirstTwo, IsUsed, Used, SameNameCount, Decimal;
    var chars := loc.TrimText(serverLabel);
    var ordinal := SameNameCount(loc, existing, serverLabel) + 1;
    var i := FirstUnused(loc, Candidates(loc, chars, ordinal), Used(loc, existing));
    if i < |Candidates(loc, chars, ordinal)| {
      CandidateNonEmpty(loc, chars, ordinal, i);
    } else {
      ShortForms(loc, chars);
    }
  }

  /** Every membership gets a shorthand, no two of them equal ignoring case, and nothing else changes. */
  lemma {:induction false} ShorthandsDistinct(loc: Locale, ms: seq<Membership>)
    requires loc.Lawful()
    ensures var r := Assign(loc, ms);
      && |r| == |ms|
      && (forall i | 0 <= i < |r| :: r[i].shorthand != "" && r[i] == ms[i].(shorthand := r[i].shorthand))
      && (forall i, j | 0 <= i < j < |r| :: loc.Lower(r[i].shorthand) != loc.Lower(r[j].shorthand))
  {
    hide Shorthand, IsUsed, Used;
    if ms != [] {
      var rest := ms[..|ms| - 1];
      ShorthandsDistinct(loc, rest);
      var given := Assign(loc, rest);
      ShorthandFresh(loc, ms[|ms| - 1].serverLabel, given);
      var added := AssignOne(loc, ms[|ms| - 1], given);
      UsedBy(loc, given, added.shorthand);
    }
  }

  lemma {:induction false} AssignPrefix(loc: Locale, ms: seq<Membership>, n: nat)
    requires loc.Lawful() && n <= |ms|
    ensures |Assign(loc, ms)| == |ms| && Assign(loc, ms[..n]) == Assign(loc, ms)[..n]
  {
    hide AssignOne;
    if n < |ms| {
      AssignPrefix(loc, ms[..|ms| - 1], n);
      assert ms[..|ms| - 1][..n] == ms[..n];
    } else {
      assert ms[..n] == ms;
      if ms != [] { AssignPrefix(loc, ms[..|ms| - 1], |ms| - 1); }
    }
  }

  /** A membership keeps its own non-blank shorthand, trimmed, if and only if no earlier membership
      was given the same one. */
  lemma {:induction false} KeptExactly(loc: Locale, ms: seq<Membership>, i: nat)
    requires loc.Lawful() && i < |ms| == |Assign(loc, ms)| && loc.TrimText(ms[i].shorthand) != ""
    ensures var r := Assign(loc, ms);
      r[i].shorthand == loc.TrimText(ms[i].shorthand)
      <==> forall j | 0 <= j < i :: loc.Lower(r[j].shorthand) != loc.Lower(loc.TrimText(ms[i].shorthand))
  {
    hide Shorthand, IsUsed, Used;
    var r := Assign(loc, ms);
    ShorthandFresh(loc, ms[i].serverLabel, r[..i]);
    AssignAt(loc, ms, i);
    var own := loc.TrimText(ms[i].shorthand);
    hide *;
    UsedBy(loc, r[..i], own);
    UsedBy(loc, r[..i], r[i].shorthand);
  }

  lemma {:induction false} AssignAt(loc: Locale, ms: seq<Membership>, i: nat)
    requires loc.Lawful() && i < |ms| == |Assign(loc, ms)|
    ensures Assign(loc, ms)[i] == AssignOne(loc, ms[i], Assign(loc, ms)[..i])
  {
    hide AssignOne;
    AssignPrefix(loc, ms, i);
    AssignPrefix(loc, ms, i + 1);
    assert ms[..i + 1][..i] == ms[..i];
  }

  /** Memberships whose own shorthands are non-blank and differ keep them all. */
  lemma {:induction false} DistinctKept(loc: Locale, ms: seq<Membership>, n: nat)
    requires loc.Lawful() && n <= |ms| == |Assign(loc, ms)|
    requires forall i | 0 <= i < |ms| :: loc.TrimText(ms[i].shorthand) != ""
    requires forall i, j | 0 <= i < j < |ms| ::
        loc.Lower(loc.TrimText(ms[i].shorthand)) != loc.Lower(loc.TrimText(ms[j].shorthand))
    ensures forall i | 0 <= i < n :: Assign(loc, ms)[i].shorthand == loc.TrimText(ms[i].shorthand)
  {
    hide *;
    if n > 0 {
      DistinctKept(loc, ms, n - 1);
      KeptExactly(loc, ms, n - 1);
    }
  }

  // ---- a second pass changes nothing ----

  lemma {:induction false} UpperPoint(loc: Locale, s: string)
    requires loc.Lawful() && s != "" && !loc.space(s[0])
    ensures var u := loc.Upper(s);
      && u != "" && !loc.space(u[0])
      && (loc.space(s[|s| - 1]) ==> |s| > 1 && u == loc.Upper(s[..|s| - 1]) + [s[|s| - 1]])
      && (!loc.space(s[|s| - 1]) ==> !loc.space(u[|u| - 1]))
  {
    var c := s[|s| - 1];
    assert loc.upper(c) != "";
    if |s| > 1 {
      UpperPoint(loc, s[..|s| - 1]);
    }
    if !loc.space(c) {
      assert loc.upper(c)[|loc.upper(c)| - 1] in loc.upper(c);
      assert loc.upper(c)[0] in loc.upper(c);
    }
  }

  /** Trimming an upper-cased prefix gives an upper-cased shorter prefix. */
  lemma {:induction false} TrimUpper(loc: Locale, s: string, n: nat) returns (k: nat)
    requires loc.Lawful() && 1 <= n <= |s| && !loc.space(s[0])
    ensures 1 <= k <= n && loc.TrimText(loc.Upper(s[..n])) == loc.Upper(s[..k])
  {
    UpperPoint(loc, s[..n]);
    if loc.space(s[n - 1]) {
      assert s[..n][..n - 1] == s[..n - 1];
      UpperPoint(loc, s[..n - 1]);
      k := TrimUpper(loc, s, n - 1);
      var u := loc.Upper(s[..n]);
      assert u[..|u| - 1] == loc.Upper(s[..n - 1]);
    } else {
      TrimResult(loc.Upper(s[..n]), loc.space);
      k := n;
    }
  }

  lemma NumberedTrimmed(loc: Locale, chars: string, base: string, n: nat)
    requires loc.Lawful() && Trimmed(chars, loc.space) && (base == First(loc, chars) || base == FirstTwo(loc, chars))
    ensures loc.TrimText(base + Decimal(n)) == base + Decimal(n)
  {
    ShortForms(loc, chars);
    var s := Initials(chars);
    UpperPoint(loc, s[..1]);
    UpperPoint(loc, s[..if |s| < 2 then |s| else 2]);
    DigitsRoundTrip(n);
    var d := Decimal(n);
    assert d[|d| - 1] in d;
    TrimResult(base + d, loc.space);
  }

  /** A candidate that trimming changes trims to one that is tried before it. */
  lemma CandidateTrims(loc: Locale, chars: string, ordinal: nat, i: nat)
    requires loc.Lawful() && Trimmed(chars, loc.space) && i < |Candidates(loc, chars, ordinal)|
    ensures var cs := Candidates(loc, chars, ordinal);
      loc.TrimText(cs[i]) == cs[i] || exists j :: 0 <= j < i && cs[j] == loc.TrimText(cs[i])
  {
    hide First, FirstTwo, Decimal, Candidates, WithSuffix, Trim, Locale.Upper;
    var s := Initials(chars);
    ShortForms(loc, chars);
    var w := |WithSuffix(First(loc, chars), ordinal, 9)|;
    CandidateAt(loc, chars, ordinal, i);
    CandidateAt(loc, chars, ordinal, 0);
    if i < 2 {
      var k := TrimUpper(loc, s, if i == 0 then 1 else if |s| < 2 then |s| else 2);
    } else if i < 2 + w {
      NumberedTrimmed(loc, chars, First(loc, chars), ordinal + i - 2);
    } else if i < 2 + w + w {
      NumberedTrimmed(loc, chars, FirstTwo(loc, chars), ordinal + i - 2 - w);
    } else {
      var k := TrimUpper(loc, chars, 3 + (i - 2 - w - w));
      CandidateAt(loc, chars, ordinal, if k == 1 then 0 else if k == 2 then 1 else 2 + w + w + k - 3);
    }
  }

  /** A created shorthand is trimmed, or trims to one that is in use. */
  lemma ShorthandTrims(loc: Locale, serverLabel: string, existing: seq<Membership>)
    requires loc.Lawful()
    ensures var r := Shorthand(loc, serverLabel, existing);
      loc.TrimText(r) == r || IsUsed(loc, loc.TrimText(r), Used(loc, existing))
  {
    hide Candidates, First, FirstTwo, IsUsed, Used, SameNameCount, Decimal, Trim;
    var chars := loc.TrimText(serverLabel);
    TrimResult(serverLabel, loc.space);
    var ordinal := SameNameCount(loc, existing, serverLabel) + 1;
    var cs := Candidates(loc, chars, ordinal);
    var i := FirstUnused(loc, cs, Used(loc, existing));
    if i < |cs| {
      CandidateTrims(loc, chars, ordinal, i);
    } else {
      NumberedTrimmed(loc, chars, FirstTwo(loc, chars),
          Fallback(loc, FirstTwo(loc, chars), ordinal, Used(loc, existing)));
    }
  }

  /** `ensureServerShorthands` is idempotent. */
  lemma {:induction false} AssignTwice(loc: Locale, ms: seq<Membership>)
    requires loc.Lawful()
    ensures Assign(loc, Assign(loc, ms)) == Assign(loc, ms)
  {
    hide Shorthand, IsUsed, Trim;
    if ms != [] {
      var rest, m := ms[..|ms| - 1], ms[|ms| - 1];
      AssignTwice(loc, rest);
      var given := Assign(loc, rest);
      var added := AssignOne(loc, m, given);
      assert Assign(loc, ms)[..|Assign(loc, ms)| - 1] == given;
      ShorthandFresh(loc, m.serverLabel, given);
      ShorthandTrims(loc, m.serverLabel, given);
      TrimResult(m.shorthand, loc.space);
      TrimResult(loc.TrimText(m.shorthand), loc.space);
      assert AssignOne(loc, added, given) == added;
    }
  }
}
