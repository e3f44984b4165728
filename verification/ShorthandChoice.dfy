/** Which shorthand a server gets, as a decision over the memberships before it. */
module ShorthandChoice {
  import opened Text
  import opened ServerRegistry
  import opened ServerShorthands

  /** No membership has the shorthand, ignoring case. */
  predicate Free(loc: Locale, existing: seq<Membership>, candidate: string) {
    forall i | 0 <= i < |existing| :: loc.Lower(existing[i].shorthand) != loc.Lower(candidate)
  }

  /** The memberships with the same label, ignoring case and surrounding space. */
  function SameLabel(loc: Locale, existing: seq<Membership>, serverLabel: string): set<int> {
    set i | 0 <= i < |existing|
            && loc.Lower(loc.TrimText(existing[i].serverLabel)) == loc.Lower(loc.TrimText(serverLabel))
  }

  /** The first number after `count` that is free with this base. */
  predicate FirstFree(loc: Locale, existing: seq<Membership>, base: string, count: int, n: int) {
    count < n && Free(loc, existing, base + Decimal(n))
    && forall k | count < k < n :: !Free(loc, existing, base + Decimal(k))
  }

  /** The shortest prefix of at least three characters that is free. */
  predicate FirstPrefix(loc: Locale, existing: seq<Membership>, chars: string, k: int) {
    3 <= k <= |chars| && Free(loc, existing, loc.Upper(chars[..k]))
    && forall l | 3 <= l < k :: !Free(loc, existing, loc.Upper(chars[..l]))
  }

  /** All one-digit numbers after `count` are taken. */
  predicate DigitsTaken(loc: Locale, existing: seq<Membership>, base: string, count: int) {
    forall k | count < k <= 9 :: !Free(loc, existing, base + Decimal(k))
  }

  predicate PrefixesTaken(loc: Locale, existing: seq<Membership>, chars: string) {
    forall k | 3 <= k <= |chars| :: !Free(loc, existing, loc.Upper(chars[..k]))
  }

  // ---- the search ----

  lemma {:induction false} SameLabelMore(loc: Locale, rest: seq<Membership>, last: Membership, serverLabel: string)
    ensures |SameLabel(loc, rest + [last], serverLabel)| == |SameLabel(loc, rest, serverLabel)|
         + if NormalizedLabel(loc, last.serverLabel) == NormalizedLabel(loc, serverLabel) then 1 else 0
  {
    var all, n := rest + [last], |rest|;
    var same := SameLabel(loc, rest, serverLabel);
    hide Trim;
    assert all[n] == last && forall i | 0 <= i < n :: all[i] == rest[i];
    assert SameLabel(loc, all, serverLabel)
        == if NormalizedLabel(loc, last.serverLabel) == NormalizedLabel(loc, serverLabel) then same + {n} else same;
  }

  lemma {:induction false} CountSame(loc: Locale, existing: seq<Membership>, serverLabel: string)
    ensures SameNameCount(loc, existing, serverLabel) == |SameLabel(loc, existing, serverLabel)|
  {
    if existing == [] {
      assert SameLabel(loc, existing, serverLabel) == {};
    } else {
      hide SameLabel, NormalizedLabel;
      var rest, last := existing[..|existing| - 1], existing[|existing| - 1];
      CountSame(loc, rest, serverLabel);
      assert existing == rest + [last];
      SameLabelMore(loc, rest, last, serverLabel);
    }
  }

  lemma {:induction false} FreeIsUnused(loc: Locale, existing: seq<Membership>, candidate: string)
    requires loc.Lawful() && candidate != ""
    ensures IsUsed(loc, candidate, Used(loc, existing)) <==> !Free(loc, existing, candidate)
  {
    UsedBy(loc, existing, candidate);
    hide IsUsed, Used;
  }

  function Width(ordinal: int): nat {
    if ordinal <= 9 then 10 - ordinal else 0
  }

  lemma {:induction false} CandidatePlaces(loc: Locale, chars: string, ordinal: nat)
    ensures var cs, w := Candidates(loc, chars, ordinal), Width(ordinal);
      && |cs| == 2 + 2 * w + (if |chars| < 3 then 0 else |chars| - 2)
      && cs[0] == First(loc, chars) && cs[1] == FirstTwo(loc, chars)
      && (forall i | 2 <= i < 2 + w :: cs[i] == First(loc, chars) + Decimal(ordinal + i - 2))
      && (forall i | 2 + w <= i < 2 + 2 * w :: cs[i] == FirstTwo(loc, chars) + Decimal(ordinal + i - 2 - w))
      && (forall i | 2 + 2 * w <= i < |cs| :: cs[i] == loc.Upper(chars[..i + 1 - 2 * w]))
  {
    hide First, FirstTwo;
  }

  /** What is chosen over memberships of which `count` have the same label. */
  ghost predicate Chosen(loc: Locale, existing: seq<Membership>, chars: string, first: string, two: string, count: int,
        r: string) {
    if Free(loc, existing, first) then r == first
    else if Free(loc, existing, two) then r == two
    else if !DigitsTaken(loc, existing, first, count) then
      exists n :: n <= 9 && FirstFree(loc, existing, first, count, n) && r == first + Decimal(n)
    else if !DigitsTaken(loc, existing, two, count) then
      exists n :: n <= 9 && FirstFree(loc, existing, two, count, n) && r == two + Decimal(n)
    else if !PrefixesTaken(loc, existing, chars) then
      exists k :: FirstPrefix(loc, existing, chars, k) && r == loc.Upper(chars[..k])
    else exists n :: FirstFree(loc, existing, two, count, n) && r == two + Decimal(n)
  }

  /** All candidates before place `i` are taken. */
  ghost predicate AllBefore(loc: Locale, existing: seq<Membership>, cs: seq<string>, i: int)
    requires i <= |cs|
  {
    forall j | 0 <= j < i :: !Free(loc, existing, cs[j])
  }

  /** What the search gives: the first candidate that is free, or the first free number. */
  ghost predicate SearchGives(loc: Locale, existing: seq<Membership>, cs: seq<string>, two: string, count: int,
        r: string) {
    || (exists i :: 0 <= i < |cs| && r == cs[i] && Free(loc, existing, cs[i]) && AllBefore(loc, existing, cs, i))
    || (AllBefore(loc, existing, cs, |cs|)
        && exists n :: FirstFree(loc, existing, two, count, n) && r == two + Decimal(n))
  }

  lemma {:induction false} FirstUnusedFree(loc: Locale, existing: seq<Membership>, chars: string, ordinal: nat)
    requires loc.Lawful()
    ensures var cs := Candidates(loc, chars, ordinal);
      var i := FirstUnused(loc, cs, Used(loc, existing));
      AllBefore(loc, existing, cs, i) && (i < |cs| ==> Free(loc, existing, cs[i]))
  {
    var cs := Candidates(loc, chars, ordinal);
    hide Candidates, IsUsed, Used, Free, FirstUnused;
    forall i | 0 <= i < |cs| ensures IsUsed(loc, cs[i], Used(loc, existing)) <==> !Free(loc, existing, cs[i]) {
      CandidateNonEmpty(loc, chars, ordinal, i);
      FreeIsUnused(loc, existing, cs[i]);
    }
  }

  lemma {:induction false} FallbackFree(loc: Locale, existing: seq<Membership>, base: string, count: nat)
    requires loc.Lawful() && base != ""
    ensures FirstFree(loc, existing, base, count, Fallback(loc, base, count + 1, Used(loc, existing)))
  {
    hide IsUsed, Used, Free, Decimal;
    var n := Fallback(loc, base, count + 1, Used(loc, existing));
    forall k: int
      ensures IsUsed(loc, base + Decimal(k), Used(loc, existing)) <==> !Free(loc, existing, base + Decimal(k))
    {
      FreeIsUnused(loc, existing, base + Decimal(k));
    }
  }

  lemma {:induction false} GivesFound(loc: Locale, existing: seq<Membership>, cs: seq<string>, two: string, count: int,
        i: int)
    requires 0 <= i < |cs| && Free(loc, existing, cs[i]) && AllBefore(loc, existing, cs, i)
    ensures SearchGives(loc, existing, cs, two, count, cs[i])
  {
    hide Free, AllBefore;
  }

  lemma {:induction false} GivesNumber(loc: Locale, existing: seq<Membership>, cs: seq<string>, two: string, count: int,
        n: int)
    requires AllBefore(loc, existing, cs, |cs|) && FirstFree(loc, existing, two, count, n)
    ensures SearchGives(loc, existing, cs, two, count, two + Decimal(n))
  {
    hide AllBefore, FirstFree, Decimal;
  }

  lemma {:induction false} ShorthandIs(loc: Locale, serverLabel: string, existing: seq<Membership>)
    requires loc.Lawful()
    ensures var chars, count := loc.TrimText(serverLabel), SameNameCount(loc, existing, serverLabel);
      var cs, two := Candidates(loc, chars, count + 1), FirstTwo(loc, chars);
      var i := FirstUnused(loc, cs, Used(loc, existing));
      Shorthand(loc, serverLabel, existing)
      == if i < |cs| then cs[i] else two + Decimal(Fallback(loc, two, count + 1, Used(loc, existing)))
  {
    hide Candidates, FirstTwo, SameNameCount, Used, FirstUnused, Decimal, Fallback, IsUsed, Trim;
  }

  lemma {:induction false} ShorthandSearch(loc: Locale, serverLabel: string, existing: seq<Membership>)
    requires loc.Lawful()
    ensures var chars, count := loc.TrimText(serverLabel), SameNameCount(loc, existing, serverLabel);
      SearchGives(loc, existing, Candidates(loc, chars, count + 1), FirstTwo(loc, chars), count,
                  Shorthand(loc, serverLabel, existing))
  {
    hide *;
    ShorthandIs(loc, serverLabel, existing);
    var chars, count := loc.TrimText(serverLabel), SameNameCount(loc, existing, serverLabel);
    var cs, two := Candidates(loc, chars, count + 1), FirstTwo(loc, chars);
    var i := FirstUnused(loc, cs, Used(loc, existing));
    FirstUnusedFree(loc, existing, chars, count + 1);
    if i < |cs| {
      GivesFound(loc, existing, cs, two, count, i);
    } else {
      ShortForms(loc, chars);
      FallbackFree(loc, existing, two, count);
      GivesNumber(loc, existing, cs, two, count, Fallback(loc, two, count + 1, Used(loc, existing)));
    }
  }

  /** The candidates from `start` on are the base with one-digit numbers. */
  ghost predicate NumbersFrom(cs: seq<string>, start: int, base: string, ordinal: int) {
    && 0 <= start <= start + Width(ordinal) <= |cs|
    && forall i | start <= i < start + Width(ordinal) :: cs[i] == base + Decimal(ordinal + i - start)
  }

  lemma {:induction false} NumberTaken(loc: Locale, existing: seq<Membership>, cs: seq<string>, start: int,
        base: string, ordinal: int, i: int, n: int)
    requires NumbersFrom(cs, start, base, ordinal) && ordinal <= n <= 9 && start + n - ordinal < i <= |cs|
    requires forall j | 0 <= j < i :: !Free(loc, existing, cs[j])
    ensures !Free(loc, existing, base + Decimal(n))
  {
    hide Free, Decimal;
    assert cs[start + n - ordinal] == base + Decimal(ordinal + (start + n - ordinal) - start);
  }

  lemma {:induction false} NumbersTried(loc: Locale, existing: seq<Membership>, cs: seq<string>, start: int,
        base: string, ordinal: int, i: int)
    requires NumbersFrom(cs, start, base, ordinal) && start <= i <= |cs|
    requires forall j | 0 <= j < i :: !Free(loc, existing, cs[j])
    ensures start + Width(ordinal) <= i ==> DigitsTaken(loc, existing, base, ordinal - 1)
    ensures i < start + Width(ordinal) && Free(loc, existing, cs[i]) ==>
        && !DigitsTaken(loc, existing, base, ordinal - 1)
        && FirstFree(loc, existing, base, ordinal - 1, ordinal + i - start) && ordinal + i - start <= 9
        && cs[i] == base + Decimal(ordinal + i - start)
  {
    hide Free, Decimal;
    forall n | ordinal <= n <= 9 && start + n - ordinal < i ensures !Free(loc, existing, base + Decimal(n)) {
      NumberTaken(loc, existing, cs, start, base, ordinal, i, n);
    }
  }

  lemma {:induction false} PrefixesTried(loc: Locale, existing: seq<Membership>, cs: seq<string>, start: int,
        chars: string, i: int)
    requires 0 <= start <= i <= |cs| && |cs| == start + if |chars| < 3 then 0 else |chars| - 2
    requires forall j | start <= j < |cs| :: cs[j] == loc.Upper(chars[..j + 3 - start])
    requires forall j | 0 <= j < i :: !Free(loc, existing, cs[j])
    ensures i == |cs| ==> PrefixesTaken(loc, existing, chars)
    ensures i < |cs| && Free(loc, existing, cs[i]) ==>
        && !PrefixesTaken(loc, existing, chars) && FirstPrefix(loc, existing, chars, i + 3 - start)
        && cs[i] == loc.Upper(chars[..i + 3 - start])
  {
    hide Free;
    forall k | 3 <= k <= |chars| && k < i + 3 - start ensures !Free(loc, existing, loc.Upper(chars[..k])) {
      assert cs[k - 3 + start] == loc.Upper(chars[..k - 3 + start + 3 - start]);
    }
  }

  /** How the candidates are laid out. */
  ghost predicate Layout(loc: Locale, cs: seq<string>, chars: string, first: string, two: string, ordinal: int) {
    var w := Width(ordinal);
    && |cs| == 2 + 2 * w + (if |chars| < 3 then 0 else |chars| - 2) && cs[0] == first && cs[1] == two
    && NumbersFrom(cs, 2, first, ordinal) && NumbersFrom(cs, 2 + w, two, ordinal)
    && forall j | 2 + 2 * w <= j < |cs| :: cs[j] == loc.Upper(chars[..j + 3 - (2 + 2 * w)])
  }

  lemma {:induction false} CandidatesLayout(loc: Locale, chars: string, ordinal: nat)
    ensures Layout(loc, Candidates(loc, chars, ordinal), chars, First(loc, chars), FirstTwo(loc, chars), ordinal)
  {
    CandidatePlaces(loc, chars, ordinal);
    hide Candidates, First, FirstTwo, Width, Decimal;
  }

  lemma {:induction false} FirstNumberChosen(loc: Locale, existing: seq<Membership>, cs: seq<string>, chars: string,
        first: string, two: string, count: int, i: int)
    requires Layout(loc, cs, chars, first, two, count + 1) && 0 <= i < |cs| && i < 2 + Width(count + 1)
    requires Free(loc, existing, cs[i]) && forall j | 0 <= j < i :: !Free(loc, existing, cs[j])
    ensures Chosen(loc, existing, chars, first, two, count, cs[i])
  {
    if i >= 2 { NumbersTried(loc, existing, cs, 2, first, count + 1, i); }
    hide Free, FirstFree, FirstPrefix, DigitsTaken, PrefixesTaken, Decimal, Width, NumbersFrom;
  }

  lemma {:induction false} SecondNumberChosen(loc: Locale, existing: seq<Membership>, cs: seq<string>, chars: string,
        first: string, two: string, count: int, i: int)
    requires Layout(loc, cs, chars, first, two, count + 1) && 0 <= i < |cs|
    requires 2 + Width(count + 1) <= i < 2 + 2 * Width(count + 1)
    requires Free(loc, existing, cs[i]) && forall j | 0 <= j < i :: !Free(loc, existing, cs[j])
    ensures Chosen(loc, existing, chars, first, two, count, cs[i])
  {
    var w := Width(count + 1);
    hide Free, FirstFree, DigitsTaken, Decimal, Width, NumbersFrom, Chosen;
    NumbersTried(loc, existing, cs, 2, first, count + 1, i);
    NumbersTried(loc, existing, cs, 2 + w, two, count + 1, i);
    SecondChosen(loc, existing, chars, first, two, count, count + 1 + i - (2 + w));
  }

  lemma {:induction false} SecondChosen(loc: Locale, existing: seq<Membership>, chars: string, first: string,
        two: string, count: int, n: int)
    requires !Free(loc, existing, first) && !Free(loc, existing, two) && DigitsTaken(loc, existing, first, count)
    requires !DigitsTaken(loc, existing, two, count) && n <= 9 && FirstFree(loc, existing, two, count, n)
    ensures Chosen(loc, existing, chars, first, two, count, two + Decimal(n))
  {
    hide Free, FirstFree, FirstPrefix, DigitsTaken, PrefixesTaken, Decimal;
  }

  lemma {:induction false} AllNumbersTried(loc: Locale, existing: seq<Membership>, cs: seq<string>, chars: string,
        first: string, two: string, count: int, i: int)
    requires Layout(loc, cs, chars, first, two, count + 1) && 2 + 2 * Width(count + 1) <= i <= |cs|
    requires forall j | 0 <= j < i :: !Free(loc, existing, cs[j])
    ensures !Free(loc, existing, first) && !Free(loc, existing, two)
    ensures DigitsTaken(loc, existing, first, count) && DigitsTaken(loc, existing, two, count)
  {
    NumbersTried(loc, existing, cs, 2, first, count + 1, i);
    NumbersTried(loc, existing, cs, 2 + Width(count + 1), two, count + 1, i);
    hide Free, FirstFree, DigitsTaken, Decimal, Width, NumbersFrom;
  }

  lemma {:induction false} PrefixChosen(loc: Locale, existing: seq<Membership>, cs: seq<string>, chars: string,
        first: string, two: string, count: int, i: int)
    requires Layout(loc, cs, chars, first, two, count + 1) && 2 + 2 * Width(count + 1) <= i < |cs|
    requires Free(loc, existing, cs[i]) && forall j | 0 <= j < i :: !Free(loc, existing, cs[j])
    ensures Chosen(loc, existing, chars, first, two, count, cs[i])
  {
    AllNumbersTried(loc, existing, cs, chars, first, two, count, i);
    PrefixesTried(loc, existing, cs, 2 + 2 * Width(count + 1), chars, i);
    hide Free, FirstFree, FirstPrefix, DigitsTaken, PrefixesTaken, Decimal, Width, NumbersFrom, Layout;
  }

  lemma {:induction false} FallbackChosen(loc: Locale, existing: seq<Membership>, cs: seq<string>, chars: string,
        first: string, two: string, count: int, n: int)
    requires Layout(loc, cs, chars, first, two, count + 1) && 0 <= count && FirstFree(loc, existing, two, count, n)
    requires forall j | 0 <= j < |cs| :: !Free(loc, existing, cs[j])
    ensures Chosen(loc, existing, chars, first, two, count, two + Decimal(n))
  {
    AllNumbersTried(loc, existing, cs, chars, first, two, count, |cs|);
    PrefixesTried(loc, existing, cs, 2 + 2 * Width(count + 1), chars, |cs|);
    hide Free, FirstFree, FirstPrefix, DigitsTaken, PrefixesTaken, Decimal, Width, NumbersFrom, Layout;
  }

  lemma {:induction false} SearchChosen(loc: Locale, existing: seq<Membership>, cs: seq<string>, chars: string,
        first: string, two: string, count: nat, r: string)
    requires Layout(loc, cs, chars, first, two, count + 1) && SearchGives(loc, existing, cs, two, count, r)
    ensures Chosen(loc, existing, chars, first, two, count, r)
  {
    hide Free, FirstFree, Chosen, Layout, Decimal, Width;
    if i :| 0 <= i < |cs| && r == cs[i] && Free(loc, existing, cs[i]) && AllBefore(loc, existing, cs, i) {
      if i < 2 + Width(count + 1) {
        FirstNumberChosen(loc, existing, cs, chars, first, two, count, i);
      } else if i < 2 + 2 * Width(count + 1) {
        SecondNumberChosen(loc, existing, cs, chars, first, two, count, i);
      } else {
        PrefixChosen(loc, existing, cs, chars, first, two, count, i);
      }
    } else {
      var n :| FirstFree(loc, existing, two, count, n) && r == two + Decimal(n);
      FallbackChosen(loc, existing, cs, chars, first, two, count, n);
    }
  }

  /** WHICH SHORTHAND. The first letter of the label if it is free, else the first two; else either with
      the smallest free digit above the number of earlier memberships of that label; else the shortest
      free prefix; and else the first two letters with the smallest free number above it. */
  lemma {:induction false} ShorthandExactly(loc: Locale, serverLabel: string, existing: seq<Membership>)
    requires loc.Lawful()
    ensures var chars := loc.TrimText(serverLabel);
      var first := if chars == "" then loc.Upper("S") else loc.Upper(chars[..1]);
      var two := if |chars| < 2 then first else loc.Upper(chars[..2]);
      Chosen(loc, existing, chars, first, two, |SameLabel(loc, existing, serverLabel)|,
             Shorthand(loc, serverLabel, existing))
  {
    var chars, count := loc.TrimText(serverLabel), SameNameCount(loc, existing, serverLabel);
    ShorthandSearch(loc, serverLabel, existing);
    CountSame(loc, existing, serverLabel);
    ShortTexts(loc, chars);
    CandidatesLayout(loc, chars, count + 1);
    hide Candidates, First, FirstTwo, Shorthand, SameNameCount, SameLabel, Chosen, Layout, SearchGives;
    SearchChosen(loc, existing, Candidates(loc, chars, count + 1), chars, First(loc, chars), FirstTwo(loc, chars),
                 count, Shorthand(loc, serverLabel, existing));
  }

  lemma {:induction false} ShortTexts(loc: Locale, chars: string)
    requires loc.Lawful()
    ensures First(loc, chars) == if chars == "" then loc.Upper("S") else loc.Upper(chars[..1])
    ensures FirstTwo(loc, chars) == if |chars| < 2 then First(loc, chars) else loc.Upper(chars[..2])
  {
    if chars != "" { MappedNonEmpty(loc, chars[..if |chars| < 2 then |chars| else 2]); }
    assert |chars| == 1 ==> chars[..1] == chars;
  }

  /** The same over a whole list: a membership keeps its own shorthand, trimmed, if it has one that is free
      among those before it, and otherwise gets the one chosen over them. */
  lemma {:induction false} AssignedExactly(loc: Locale, ms: seq<Membership>, i: nat)
    requires loc.Lawful() && i < |ms|
    ensures |Assign(loc, ms)| == |ms|
    ensures var r, own := Assign(loc, ms), loc.TrimText(ms[i].shorthand);
      var chars := loc.TrimText(ms[i].serverLabel);
      var first := if chars == "" then loc.Upper("S") else loc.Upper(chars[..1]);
      var two := if |chars| < 2 then first else loc.Upper(chars[..2]);
      if own != "" && Free(loc, r[..i], own) then r[i].shorthand == own
      else Chosen(loc, r[..i], chars, first, two, |SameLabel(loc, ms[..i], ms[i].serverLabel)|, r[i].shorthand)
  {
    hide *;
    ShorthandsDistinct(loc, ms);
    AssignAt(loc, ms, i);
    var given := Assign(loc, ms)[..i];
    ShorthandExactly(loc, ms[i].serverLabel, given);
    assert forall j | 0 <= j < i :: given[j].serverLabel == ms[..i][j].serverLabel;
    SameLabels(loc, given, ms[..i], ms[i].serverLabel);
    AssignedOne(loc, ms[i], given);
  }

  lemma {:induction false} SameLabels(loc: Locale, a: seq<Membership>, b: seq<Membership>, serverLabel: string)
    requires |a| == |b| && forall j | 0 <= j < |a| :: a[j].serverLabel == b[j].serverLabel
    ensures SameLabel(loc, a, serverLabel) == SameLabel(loc, b, serverLabel)
  {
    hide Trim;
  }

  lemma {:induction false} AssignedOne(loc: Locale, m: Membership, given: seq<Membership>)
    requires loc.Lawful()
    ensures var own := loc.TrimText(m.shorthand);
      AssignOne(loc, m, given).shorthand
      == if own != "" && Free(loc, given, own) then own else Shorthand(loc, m.serverLabel, given)
  {
    var own := loc.TrimText(m.shorthand);
    if own != "" { FreeIsUnused(loc, given, own); }
    hide Free, IsUsed, Used, Shorthand, Trim;
  }
}
