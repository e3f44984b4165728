/** The session cache with sliding expiry (server-go/internal/server/cache.go). The clock is a parameter
    that never goes back; a `maxLifetime` of zero or less means no absolute deadline. */
module SessionCache {

  datatype Limits = Limits(ttl: int, maxLifetime: int)

  datatype Entry = Entry(value: string, expiresAt: int, createdAt: int)

  type Items = map<string, Entry>

  datatype Op =
    | Set(key: string, value: string)
    | Touch(key: string)
    | Get(key: string)
    | Has(key: string)
    | Delete(key: string)
    | Purge

  datatype Answer = Done | Absent | Alive(value: string, until: int) | Found(value: string) | Present

  // ---- the cache ----

  function BoundedExpiry(limits: Limits, candidate: int, createdAt: int): int {
    if limits.maxLifetime > 0 && candidate > createdAt + limits.maxLifetime then createdAt + limits.maxLifetime
        else candidate
  }

  /** The entry after `Touch`, also when it fails. */
  function Touched(limits: Limits, e: Entry, now: int): Entry {
    var expiresAt := BoundedExpiry(limits, e.expiresAt, e.createdAt);
    var extended := BoundedExpiry(limits, now + limits.ttl, e.createdAt);
    e.(expiresAt := if now <= expiresAt && extended > expiresAt then extended else expiresAt)
  }

  function Next(limits: Limits, items: Items, op: Op, now: int): Items {
    match op
    case Set(key, value) => items[key := Entry(value, BoundedExpiry(limits, now + limits.ttl, now), now)]
    case Touch(key) => if key in items then items[key := Touched(limits, items[key], now)] else items
    case Delete(key) => items - {key}
    case Purge => map key | key in items && now <= items[key].expiresAt :: items[key]
    case Get(_) => items
    case Has(_) => items
  }

  function Reply(limits: Limits, items: Items, op: Op, now: int): Answer {
    match op
    case Touch(key) =>
      if key !in items then Absent else
        var e := items[key];
        if now > BoundedExpiry(limits, e.expiresAt, e.createdAt) then Absent
        else Alive(e.value, Touched(limits, e, now).expiresAt)
    case Get(key) => if key in items && now <= items[key].expiresAt then Found(items[key].value) else Absent
    case Has(key) => if key in items && now < items[key].expiresAt then Present else Absent
    case Set(_, _) => Done
    case Delete(_) => Done
    case Purge => Done
  }

  class Cache {
    var items: Items
    const limits: Limits

    constructor (idleTTL: int, maxLifetime: int)
      ensures items == map[] && limits == Limits(idleTTL, maxLifetime)
    {
      items, limits := map[], Limits(idleTTL, maxLifetime);
    }

    method SetValue(key: string, value: string, now: int)
      modifies this
      ensures items == Next(limits, old(items), Set(key, value), now)
    {
      var expiresAt := Clamp(now + limits.ttl, now);
      items := items[key := Entry(value, expiresAt, now)];
    }

    method Clamp(candidate: int, createdAt: int) returns (r: int)
      ensures r == BoundedExpiry(limits, candidate, createdAt)
    {
      if limits.maxLifetime <= 0 {
        return candidate;
      }
      var hardDeadline := createdAt + limits.maxLifetime;
      if candidate > hardDeadline {
        return hardDeadline;
      }
      return candidate;
    }

    method TouchKey(key: string, now: int) returns (r: Answer)
      modifies this
      ensures items == Next(limits, old(items), Touch(key), now)
      ensures r == Reply(limits, old(items), Touch(key), now)
    {
      if key !in items {
        return Absent;
      }
      var entry := items[key];
      var expiresAt := Clamp(entry.expiresAt, entry.createdAt);
      items := items[key := entry.(expiresAt := expiresAt)];
      if now > expiresAt {
        return Absent;
      }
      var extended := Clamp(now + limits.ttl, entry.createdAt);
      if extended > expiresAt {
        items := items[key := entry.(expiresAt := extended)];
      }
      return Alive(items[key].value, items[key].expiresAt);
    }

    method GetValue(key: string, now: int) returns (r: Answer)
      ensures r == Reply(limits, items, Get(key), now)
    {
      if key !in items || now > items[key].expiresAt {
        return Absent;
      }
      return Found(items[key].value);
    }

    method HasKey(key: string, now: int) returns (r: Answer)
      ensures r == Reply(limits, items, Has(key), now)
    {
      return if key in items && now < items[key].expiresAt then Present else Absent;
    }

    method DeleteKey(key: string)
      modifies this
      ensures forall now :: items == Next(limits, old(items), Delete(key), now)
    {
      items := items - {key};
    }

    /** The sweep over all entries, in any order. */
    method PurgeExpired(now: int)
      modifies this
      ensures items == Next(limits, old(items), Purge, now)
    {
      var unseen := items.Keys;
      while unseen != {}
        invariant unseen <= items.Keys <= old(items).Keys
        invariant forall key | key in items :: items[key] == old(items)[key]
        invariant forall key | key in old(items) && key !in unseen :: key in items <==> now <= old(items)[key].expiresAt
        decreases unseen
      {
        var key :| key in unseen;
        unseen := unseen - {key};
        if now > items[key].expiresAt {
          items := items - {key};
        }
      }
    }
  }

  // ---- the reference: no expiry times, nothing ever purged ----

  datatype Session = Session(value: string, created: int, lastActive: int)

  type Sessions = map<string, Session>

  /** Not idle for longer than the time to live, and not past the absolute deadline. */
  predicate Live(limits: Limits, s: Session, now: int) {
    now <= s.lastActive + limits.ttl && (limits.maxLifetime > 0 ==> now <= s.created + limits.maxLifetime)
  }

  function RefNext(limits: Limits, sessions: Sessions, op: Op, now: int): Sessions {
    match op
    case Set(key, value) => sessions[key := Session(value, now, now)]
    case Touch(key) =>
      if key in sessions && Live(limits, sessions[key], now) then sessions[key := sessions[key].(lastActive := now)]
          else sessions
    case Delete(key) => sessions - {key}
    case Get(_) => sessions
    case Has(_) => sessions
    case Purge => sessions
  }

  /** The last moment a session is valid if it is not used again. */
  function Until(limits: Limits, s: Session): int {
    if limits.maxLifetime > 0 && s.created + limits.maxLifetime < s.lastActive + limits.ttl
    then s.created + limits.maxLifetime else s.lastActive + limits.ttl
  }

  function RefReply(limits: Limits, sessions: Sessions, op: Op, now: int): Answer {
    match op
    case Touch(key) =>
      if key in sessions && Live(limits, sessions[key], now)
      then Alive(sessions[key].value, Until(limits, sessions[key].(lastActive := now))) else Absent
    case Get(key) => if key in sessions && Live(limits, sessions[key], now) then Found(sessions[key].value) else Absent
    case Has(key) => if key in sessions && Live(limits, sessions[key], now + 1) then Present else Absent
    case Set(_, _) => Done
    case Delete(_) => Done
    case Purge => Done
  }

  // ---- simulation ----

  ghost predicate Matches(limits: Limits, e: Entry, s: Session, now: int) {
    && e.value == s.value && e.createdAt == s.created <= s.lastActive <= now
    && e.expiresAt == Until(limits, s)
  }

  /** Every entry is that of its session, and a session without an entry has expired for good. */
  ghost predicate Simulates(limits: Limits, items: Items, sessions: Sessions, now: int) {
    && (forall key | key in items :: key in sessions && Matches(limits, items[key], sessions[key], now))
    && (forall key | key in sessions && key !in items ::
          !Live(limits, sessions[key], now) && sessions[key].created <= sessions[key].lastActive <= now)
  }

  /** Expired is expired: a `Touch` can only lengthen the validity of a live session. */
  lemma LiveUntil(limits: Limits, s: Session, now: int)
    ensures Live(limits, s, now) <==> now <= Until(limits, s)
  {
  }

  /** What an entry and its session say to each other at one moment. */
  lemma {:induction false} EntryStep(limits: Limits, e: Entry, s: Session, earlier: int, now: int)
    requires Matches(limits, e, s, earlier) && earlier <= now
    ensures Matches(limits, e, s, now)
    ensures now <= e.expiresAt <==> Live(limits, s, now)
    ensures now < e.expiresAt <==> Live(limits, s, now + 1)
    ensures BoundedExpiry(limits, e.expiresAt, e.createdAt) == e.expiresAt
    ensures Live(limits, s, now) ==> Matches(limits, Touched(limits, e, now), s.(lastActive := now), now)
    ensures !Live(limits, s, now) ==> Touched(limits, e, now) == e
  {
    LiveUntil(limits, s, now);
    LiveUntil(limits, s, now + 1);
  }

  lemma {:induction false} Step(limits: Limits, items: Items, sessions: Sessions, earlier: int, op: Op, now: int)
    requires Simulates(limits, items, sessions, earlier) && earlier <= now
    ensures Simulates(limits, Next(limits, items, op, now), RefNext(limits, sessions, op, now), now)
    ensures Reply(limits, items, op, now) == RefReply(limits, sessions, op, now)
  {
    Replies(limits, items, sessions, earlier, op, now);
    hide Reply, RefReply;
    forall key | key in items {
      EntryStep(limits, items[key], sessions[key], earlier, now);
    }
    forall key | key in sessions && key !in items ensures !Live(limits, sessions[key], now) {
    }
    if op.Set? {
      assert Matches(limits, Entry(op.value, BoundedExpiry(limits, now + limits.ttl, now), now),
          Session(op.value, now, now), now);
    }
    hide Matches, Live, Touched, BoundedExpiry;
  }

  lemma {:induction false} Replies(limits: Limits, items: Items, sessions: Sessions, earlier: int, op: Op, now: int)
    requires Simulates(limits, items, sessions, earlier) && earlier <= now
    ensures Reply(limits, items, op, now) == RefReply(limits, sessions, op, now)
  {
    var key := if op.Touch? || op.Get? || op.Has? || op.Set? || op.Delete? then op.key else "";
    if key in items {
      EntryStep(limits, items[key], sessions[key], earlier, now);
    }
  }

  // ---- runs ----

  datatype Timed = At(time: int, op: Op)

  predicate InTime(events: seq<Timed>) {
    forall i, j | 0 <= i < j < |events| :: events[i].time <= events[j].time
  }

  function Run(limits: Limits, events: seq<Timed>): Items {
    if events == [] then map[]
    else Next(limits, Run(limits, events[..|events| - 1]), events[|events| - 1].op, events[|events| - 1].time)
  }

  function RefRun(limits: Limits, events: seq<Timed>): Sessions {
    if events == [] then map[]
    else RefNext(limits, RefRun(limits, events[..|events| - 1]), events[|events| - 1].op, events[|events| - 1].time)
  }

  lemma {:induction false} RunSimulates(limits: Limits, events: seq<Timed>, now: int)
    requires InTime(events) && forall i | 0 <= i < |events| :: events[i].time <= now
    ensures Simulates(limits, Run(limits, events), RefRun(limits, events), now)
  {
    if events != [] {
      var before, e := events[..|events| - 1], events[|events| - 1];
      RunSimulates(limits, before, e.time);
      hide Simulates, Next, RefNext;
      Step(limits, Run(limits, before), RefRun(limits, before), e.time, e.op, e.time);
      Later(limits, Run(limits, events), RefRun(limits, events), e.time, now);
    }
  }

  lemma Later(limits: Limits, items: Items, sessions: Sessions, earlier: int, now: int)
    requires Simulates(limits, items, sessions, earlier) && earlier <= now
    ensures Simulates(limits, items, sessions, now)
  {
  }

  /** REFINEMENT. After any run in time order, every operation answers as the reference does, for any
      limits. */
  lemma {:induction false} AnswersAsReference(limits: Limits, events: seq<Timed>, e: Timed)
    requires InTime(events + [e])
    ensures Reply(limits, Run(limits, events), e.op, e.time) == RefReply(limits, RefRun(limits, events), e.op, e.time)
  {
    var all := events + [e];
    forall i | 0 <= i < |events| ensures events[i].time <= e.time {
      assert all[i] == events[i] && all[|events|] == e;
    }
    assert InTime(events) by {
      assert forall i | 0 <= i < |events| :: all[i] == events[i];
    }
    RunSimulates(limits, events, e.time);
    hide Simulates, Reply, RefReply, Run, RefRun;
    Step(limits, Run(limits, events), RefRun(limits, events), e.time, e.op, e.time);
  }

  function WithoutPurges(events: seq<Timed>): seq<Timed> {
    if events == [] then [] else
      WithoutPurges(events[..|events| - 1]) + if events[|events| - 1].op.Purge? then [] else [events[|events| - 1]]
  }

  lemma {:induction false} ReferenceIgnoresPurges(limits: Limits, events: seq<Timed>)
    ensures RefRun(limits, WithoutPurges(events)) == RefRun(limits, events)
  {
    if events != [] {
      var before, e := events[..|events| - 1], events[|events| - 1];
      ReferenceIgnoresPurges(limits, before);
      if !e.op.Purge? {
        var kept := WithoutPurges(before) + [e];
        assert kept[..|kept| - 1] == WithoutPurges(before);
      } else {
        assert WithoutPurges(events) == WithoutPurges(before);
      }
    }
  }

  lemma {:induction false} WithoutPurgesInTime(events: seq<Timed>, e: Timed)
    requires InTime(events + [e])
    ensures InTime(WithoutPurges(events) + [e])
    ensures forall x | x in WithoutPurges(events) :: x in events
  {
    if events != [] {
      var before, last := events[..|events| - 1], events[|events| - 1];
      var all := events + [e];
      assert forall i | 0 <= i < |before| :: (before + [last])[i] == all[i];
      assert (before + [last])[|before|] == all[|before|] && all[|events|] == e && all[|before|] == last;
      assert InTime(before + [last]);
      WithoutPurgesInTime(before, last);
      var kept := WithoutPurges(before);
      forall i | 0 <= i < |kept| ensures kept[i].time <= last.time <= e.time {
        assert (kept + [last])[i] == kept[i] && (kept + [last])[|kept|] == last;
      }
      assert forall i, j | 0 <= i < j < |kept| :: kept[i].time <= kept[j].time by {
        assert forall i | 0 <= i < |kept| :: (kept + [last])[i] == kept[i];
      }
    }
  }

  /** Sweeping at any moments changes no answer. */
  lemma {:induction false} PurgesInvisible(limits: Limits, events: seq<Timed>, e: Timed)
    requires InTime(events + [e])
    ensures Reply(limits, Run(limits, events), e.op, e.time) ==
        Reply(limits, Run(limits, WithoutPurges(events)), e.op, e.time)
  {
    AnswersAsReference(limits, events, e);
    WithoutPurgesInTime(events, e);
    AnswersAsReference(limits, WithoutPurges(events), e);
    ReferenceIgnoresPurges(limits, events);
  }

  // ---- when a session is valid, in terms of the history ----

  /** Event `i` set the key and nothing later set or deleted it. */
  predicate InForce(events: seq<Timed>, key: string, i: nat) {
    i < |events| && events[i].op.Set? && events[i].op.key == key
    && forall j | i < j < |events| :: !((events[j].op.Set? || events[j].op.Delete?) && events[j].op.key == key)
  }

  /** Event `j` is the last use of the session that event `i` set: the set itself or a successful touch. */
  ghost predicate LastUse(limits: Limits, events: seq<Timed>, key: string, i: nat, j: nat) {
    && i <= j < |events|
    && (j > i ==> Succeeds(limits, events, key, j))
    && forall k | j < k < |events| :: !Succeeds(limits, events, key, k)
  }

  ghost predicate Succeeds(limits: Limits, events: seq<Timed>, key: string, k: nat) {
    k < |events| && events[k].op == Touch(key) &&
        Reply(limits, Run(limits, events[..k]), Touch(key), events[k].time).Alive?
  }

  /** Events `i` and `j` are the set and the last use behind the reference's session, if it has one. */
  ghost predicate Behind(limits: Limits, events: seq<Timed>, key: string, i: nat, j: nat) {
    var sessions := RefRun(limits, events);
    && (key in sessions ==> InForce(events, key, i) && LastUse(limits, events, key, i, j)
                            && sessions[key] == Session(events[i].op.value, events[i].time, events[j].time))
    && (key !in sessions ==> forall k | 0 <= k < |events| :: !InForce(events, key, k))
  }

  /** One more event leaves what the earlier ones did, and adds at most one success. */
  lemma {:induction false} SuccessesBefore(limits: Limits, before: seq<Timed>, e: Timed, key: string)
    ensures var events := before + [e];
      && (forall k: nat | k < |before| :: Succeeds(limits, events, key, k) <==> Succeeds(limits, before, key, k))
      && (Succeeds(limits, events, key, |before|) <==>
          e.op == Touch(key) && Reply(limits, Run(limits, before), Touch(key), e.time).Alive?)
      && (forall k: nat | k < |before| :: InForce(events, key, k) <==>
            InForce(before, key, k) && !((e.op.Set? || e.op.Delete?) && e.op.key == key))
      && (InForce(events, key, |before|) <==> e.op.Set? && e.op.key == key)
  {
    var events := before + [e];
    hide Reply, Run;
    assert forall k | 0 <= k < |before| :: events[..k] == before[..k] && events[k] == before[k];
    assert events[..|before|] == before && events[|before|] == e;
  }

  lemma {:induction false} BehindNext(limits: Limits, before: seq<Timed>, e: Timed, key: string, i: nat, j: nat)
    returns (i': nat, j': nat)
    requires InTime(before + [e]) && Behind(limits, before, key, i, j)
    ensures Behind(limits, before + [e], key, i', j')
  {
    var events, n := before + [e], |before|;
    SuccessesBefore(limits, before, e, key);
    AnswersAsReference(limits, before, e);
    assert events[..n] == before && events[n] == e && forall k | 0 <= k < n :: events[k] == before[k];
    hide Reply, Run, InForce, Succeeds, InTime, Live, Until;
    i', j' := i, j;
    if e.op.Set? && e.op.key == key {
      i', j' := n, n;
    } else if Succeeds(limits, events, key, n) {
      j' := n;
    }
  }

  lemma {:induction false} SessionFromHistory(limits: Limits, events: seq<Timed>, key: string) returns (i: nat, j: nat)
    requires InTime(events)
    ensures Behind(limits, events, key, i, j)
  {
    if events == [] {
      i, j := 0, 0;
    } else {
      var n := |events| - 1;
      assert events == events[..n] + [events[n]];
      i, j := SessionFromHistory(limits, events[..n], key);
      hide Behind;
      i, j := BehindNext(limits, events[..n], events[n], key, i, j);
    }
  }

  ghost predicate Valid(limits: Limits, events: seq<Timed>, key: string, now: int) {
    exists i: nat, j: nat ::
      InForce(events, key, i) && LastUse(limits, events, key, i, j)
      && now <= events[j].time + limits.ttl
      && (limits.maxLifetime > 0 ==> now <= events[i].time + limits.maxLifetime)
  }

  /** A touch succeeds exactly if the key was set and not deleted since, no more than the time to live
      has passed since its last use, and, with an absolute deadline, no more than the maximum lifetime
      since it was set. */
  lemma {:induction false} TouchExactly(limits: Limits, events: seq<Timed>, key: string, now: int)
    requires InTime(events + [At(now, Touch(key))])
    ensures Reply(limits, Run(limits, events), Touch(key), now).Alive? <==> Valid(limits, events, key, now)
  {
    var e := At(now, Touch(key));
    var all := events + [e];
    assert InTime(events) by { assert forall k | 0 <= k < |events| :: all[k] == events[k]; }
    AnswersAsReference(limits, events, e);
    var i, j := SessionFromHistory(limits, events, key);
    hide Succeeds, Run, RefRun, Reply;
    forall i': nat, j': nat | InForce(events, key, i') && LastUse(limits, events, key, i', j') &&
        key in RefRun(limits, events)
      ensures i' == i && j' == j
    {
    }
  }

  /** `Has` is stricter than `Get`: they disagree exactly at the very last valid moment, where only
      `Get` finds the session. */
  lemma {:induction false} HasMissesTheLastMoment(limits: Limits, events: seq<Timed>, key: string, now: int)
    ensures var items := Run(limits, events);
      (Reply(limits, items, Get(key), now).Found? != Reply(limits, items, Has(key), now).Present?)
      == (key in items && items[key].expiresAt == now)
    ensures var items := Run(limits, events);
      Reply(limits, items, Has(key), now).Present? ==> Reply(limits, items, Get(key), now).Found?
  {
  }

  /** THE ANSWERS. A key that was set, and neither set again nor deleted since, is found with the value it
      was set to while neither the time to live since its last use nor the maximum lifetime since it was
      set has passed; present up to but not including that moment; and a touch extends it from now. */
  lemma {:induction false} AnswersExactly(limits: Limits, events: seq<Timed>, key: string, now: int, i: nat, j: nat)
    requires InTime(events) && (forall k | 0 <= k < |events| :: events[k].time <= now)
    requires InForce(events, key, i) && LastUse(limits, events, key, i, j)
    ensures var items, value := Run(limits, events), events[i].op.value;
      var idle, hard := events[j].time + limits.ttl, events[i].time + limits.maxLifetime;
      var bounded := limits.maxLifetime > 0;
      && Reply(limits, items, Get(key), now)
         == (if now <= idle && (bounded ==> now <= hard) then Found(value) else Absent)
      && Reply(limits, items, Has(key), now) == (if now < idle && (bounded ==> now < hard) then Present else Absent)
      && Reply(limits, items, Touch(key), now)
         == (if now <= idle && (bounded ==> now <= hard)
             then Alive(value, if bounded && hard < now + limits.ttl then hard else now + limits.ttl) else Absent)
  {
    Appended(events, At(now, Get(key)));
    Appended(events, At(now, Has(key)));
    Appended(events, At(now, Touch(key)));
    AnswersAsReference(limits, events, At(now, Get(key)));
    AnswersAsReference(limits, events, At(now, Has(key)));
    AnswersAsReference(limits, events, At(now, Touch(key)));
    var a, b := SessionFromHistory(limits, events, key);
    hide Succeeds, Run, RefRun, Reply;
    assert key in RefRun(limits, events);
    assert a == i && b == j;
  }

  lemma {:induction false} Appended(events: seq<Timed>, e: Timed)
    requires InTime(events) && forall k | 0 <= k < |events| :: events[k].time <= e.time
    ensures InTime(events + [e])
  {
  }

  /** A key that no set is in force for is absent for every operation. */
  lemma {:induction false} AbsentExactly(limits: Limits, events: seq<Timed>, key: string, now: int)
    requires InTime(events) && (forall k | 0 <= k < |events| :: events[k].time <= now)
    requires forall i :: !InForce(events, key, i)
    ensures Reply(limits, Run(limits, events), Get(key), now) == Absent
    ensures Reply(limits, Run(limits, events), Has(key), now) == Absent
    ensures Reply(limits, Run(limits, events), Touch(key), now) == Absent
  {
    Appended(events, At(now, Get(key)));
    Appended(events, At(now, Has(key)));
    Appended(events, At(now, Touch(key)));
    AnswersAsReference(limits, events, At(now, Get(key)));
    AnswersAsReference(limits, events, At(now, Has(key)));
    AnswersAsReference(limits, events, At(now, Touch(key)));
    var a, b := SessionFromHistory(limits, events, key);
    hide Succeeds, Run, RefRun, Reply, InForce;
    assert key !in RefRun(limits, events);
  }

  /** A sweep keeps exactly the entries that can still be found. */
  lemma {:induction false} SweepExactly(limits: Limits, events: seq<Timed>, key: string, now: int)
    ensures var before, after := Run(limits, events), Run(limits, events + [At(now, Purge)]);
      (key in after <==> Reply(limits, before, Get(key), now).Found?) && (key in after ==> after[key] == before[key])
  {
    assert (events + [At(now, Purge)])[..|events|] == events;
  }
}
