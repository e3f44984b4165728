/** The replay window of signed requests (server-go/internal/server/socket_handlers.go): a map from
    replay keys to acceptance times, a queue of the same keys, a time cutoff and a cap. Times are
    nanoseconds; envelope timestamps are milliseconds. */
module ReplayWindow {
  import opened Sorting

  /** signedRequestMaxSkew: five minutes. */
  const MAX_SKEW := 300_000_000_000
  const NANOS_PER_MILLI := 1_000_000

  /** One accepted request. */
  datatype Entry = Entry(key: string, time: int)

  /** The entry is still remembered: younger than the cutoff of the last acceptance, and among the
      last `limit` acceptances. */
  predicate Live(log: seq<Entry>, i: int, limit: int)
    requires 0 <= i < |log|
  {
    log[i].time > log[|log| - 1].time - MAX_SKEW && |log| - i <= limit
  }

  predicate Known(log: seq<Entry>, key: string, limit: int) {
    exists i :: 0 <= i < |log| && Live(log, i, limit) && log[i].key == key
  }

  predicate Ordered(log: seq<Entry>) {
    forall i, j | 0 <= i < j < |log| :: log[i].time <= log[j].time
  }

  function Keys(log: seq<Entry>): seq<string> {
    seq(|log|, i requires 0 <= i < |log| => log[i].key)
  }

  class ReplayGuard {
    var authReplay: map<string, int>
    var authReplayOrder: seq<string>
    const authReplayLimit: int

    /** Everything ever accepted, and how much of it has been trimmed. */
    ghost var log: seq<Entry>
    ghost var trimmed: nat

    constructor (limit: int)
      requires limit >= 1
      ensures Valid() && log == [] && authReplayLimit == limit
    {
      authReplayLimit := limit;
      authReplay, authReplayOrder, log, trimmed := map[], [], [], 0;
    }

    /** Map and queue hold exactly the live part of the log, which is its untrimmed suffix. */
    ghost predicate Valid()
      reads this
    {
      && authReplayLimit >= 1 && Ordered(log)
      && Holds(log, trimmed, authReplay, authReplayOrder)
      && TrimmedTo(log, trimmed, authReplayLimit)
    }

    /** Accepts a new key and refuses one that is still live; the second trim loop never removes
        anything. */
    method MarkReplay(replayKey: string, now: int) returns (ok: bool)
      requires Valid() && (log != [] ==> log[|log| - 1].time <= now)
      modifies this
      ensures Valid()
      ensures ok <==> replayKey != "" && !Known(old(log), replayKey, authReplayLimit)
      ensures log == if ok then old(log) + [Entry(replayKey, now)] else old(log)
      ensures Distinct(authReplayOrder) && authReplay.Keys == Elements(authReplayOrder)
      ensures |authReplayOrder| <= authReplayLimit
    {
      hide Holds, TrimmedTo, Stale, Ordered, Known, Keys;
      HoldsLive(log, trimmed, authReplay, authReplayOrder, authReplayLimit);
      if replayKey == "" {
        return false;
      }
      if replayKey in authReplay {
        return false;
      }
      authReplay := authReplay[replayKey := now];
      authReplayOrder := authReplayOrder + [replayKey];
      HoldsAppend(log, trimmed, old(authReplay), old(authReplayOrder), replayKey, now);
      StaleStays(log, trimmed, authReplayLimit, Entry(replayKey, now));
      log := log + [Entry(replayKey, now)];
      TrimExpired(now - MAX_SKEW);
      ghost var order := authReplayOrder;
      SuffixSize(log, trimmed, authReplay, authReplayOrder, authReplayLimit);
      TrimToCap();
      assert authReplayOrder == order;
      HoldsLive(log, trimmed, authReplay, authReplayOrder, authReplayLimit);
      return true;
    }

    /** The first loop: drops expired keys, and keys over the cap, from the front. */
    method TrimExpired(cutoff: int)
      requires Ordered(log) && log != [] && cutoff == log[|log| - 1].time - MAX_SKEW
      requires Holds(log, trimmed, authReplay, authReplayOrder)
      requires Stale(log, trimmed, authReplayLimit)
      modifies this`authReplay, this`authReplayOrder, this`trimmed
      ensures Holds(log, trimmed, authReplay, authReplayOrder)
      ensures TrimmedTo(log, trimmed, authReplayLimit)
    {
      hide Holds;
      hide Stale;
      hide TrimmedTo;
      hide Ordered;
      while |authReplayOrder| > 0
        invariant Holds(log, trimmed, authReplay, authReplayOrder)
        invariant Stale(log, trimmed, authReplayLimit)
        decreases |authReplayOrder|
      {
        HoldsOldest(log, trimmed, authReplay, authReplayOrder);
        var oldest := authReplayOrder[0];
        if oldest in authReplay && authReplay[oldest] > cutoff && |authReplayOrder| <= authReplayLimit {
          LiveFromHere(log, trimmed, authReplayLimit);
          return;
        }
        StaleNext(log, trimmed, authReplayLimit);
        authReplay := authReplay - {oldest};
        authReplayOrder := authReplayOrder[1..];
        trimmed := trimmed + 1;
      }
      AllStale(log, trimmed, authReplay, authReplayLimit);
    }

    /** The second loop. */
    method TrimToCap()
      requires authReplayLimit >= 0
      modifies this`authReplay, this`authReplayOrder
      ensures |authReplayOrder| <= authReplayLimit
      ensures |old(authReplayOrder)| <= authReplayLimit ==>
        authReplay == old(authReplay) && authReplayOrder == old(authReplayOrder)
    {
      ghost var n := 0;
      while |authReplayOrder| > authReplayLimit
        invariant n > 0 ==> |old(authReplayOrder)| > authReplayLimit
        invariant n == 0 ==> authReplay == old(authReplay) && authReplayOrder == old(authReplayOrder)
        decreases |authReplayOrder|
      {
        var oldest := authReplayOrder[0];
        authReplay := authReplay - {oldest};
        authReplayOrder := authReplayOrder[1..];
        n := n + 1;
      }
    }
  }

  /** Map and queue hold the log from index `d` on, each key once. */
  ghost predicate Holds(log: seq<Entry>, d: nat, replay: map<string, int>, order: seq<string>) {
    && d <= |log| && order == Keys(log[d..]) && Distinct(order)
    && replay.Keys == Elements(order)
    && (forall i | d <= i < |log| :: log[i].key in replay && replay[log[i].key] == log[i].time)
  }

  ghost predicate Stale(log: seq<Entry>, d: nat, limit: int) {
    d <= |log| && forall i | 0 <= i < d :: !Live(log, i, limit)
  }

  /** The live entries are those from index `d` on. */
  ghost predicate TrimmedTo(log: seq<Entry>, d: nat, limit: int) {
    d <= |log| && forall i | 0 <= i < |log| :: Live(log, i, limit) <==> d <= i
  }

  lemma StaleStays(log: seq<Entry>, d: nat, limit: int, e: Entry)
    requires Ordered(log) && TrimmedTo(log, d, limit) && (log != [] ==> log[|log| - 1].time <= e.time)
    ensures Stale(log + [e], d, limit) && Ordered(log + [e])
  {
    forall i | 0 <= i < d ensures !Live(log + [e], i, limit) {
      assert !Live(log, i, limit);
    }
  }

  lemma StaleNext(log: seq<Entry>, d: nat, limit: int)
    requires Stale(log, d, limit) && d < |log| && !Live(log, d, limit)
    ensures Stale(log, d + 1, limit)
  {
  }

  /** Entries get younger, and closer to the end, along the log. */
  lemma LiveFromHere(log: seq<Entry>, d: nat, limit: int)
    requires Ordered(log) && Stale(log, d, limit) && d < |log| && Live(log, d, limit)
    ensures TrimmedTo(log, d, limit)
  {
  }

  lemma AllStale(log: seq<Entry>, d: nat, replay: map<string, int>, limit: int)
    requires Stale(log, d, limit) && Holds(log, d, replay, [])
    ensures TrimmedTo(log, d, limit)
  {
    assert |Keys(log[d..])| == |log| - d;
  }

  lemma HoldsLive(log: seq<Entry>, d: nat, replay: map<string, int>, order: seq<string>, limit: int)
    requires Holds(log, d, replay, order)
    requires TrimmedTo(log, d, limit)
    ensures forall key :: key in replay <==> Known(log, key, limit)
    ensures limit >= 0 ==> |order| <= limit
    ensures Distinct(order) && replay.Keys == Elements(order)
  {
    forall key ensures key in replay <==> Known(log, key, limit) {
      if key in replay {
        var k :| 0 <= k < |order| && order[k] == key;
        assert log[d + k].key == key && Live(log, d + k, limit);
      }
    }
    if d < |log| {
      assert Live(log, d, limit);
    }
  }

  lemma HoldsAppend(log: seq<Entry>, d: nat, replay: map<string, int>, order: seq<string>, key: string, now: int)
    requires Holds(log, d, replay, order) && key !in replay
    ensures Holds(log + [Entry(key, now)], d, replay[key := now], order + [key])
  {
    assert (log + [Entry(key, now)])[d..] == log[d..] + [Entry(key, now)];
    AppendDistinct(order, key);
    forall i | d <= i < |log| ensures log[i].key != key {
      assert order[i - d] == log[i].key;
      assert order[i - d] in Elements(order);
    }
  }

  lemma HoldsOldest(log: seq<Entry>, d: nat, replay: map<string, int>, order: seq<string>)
    requires Holds(log, d, replay, order) && order != []
    ensures d < |log| && order[0] in replay && order[0] == log[d].key && |order| == |log| - d &&
        replay[order[0]] == log[d].time
    ensures Holds(log, d + 1, replay - {order[0]}, order[1..])
  {
    KeysFrom(log, d);
    WithoutFirst(order);
    hide Keys, Distinct, Elements;
    forall i | d < i < |log| ensures log[i].key != order[0] {
      assert order[i - d] == order[1..][i - d - 1];
    }
  }

  lemma KeysFrom(log: seq<Entry>, d: nat)
    requires d <= |log|
    ensures |Keys(log[d..])| == |log| - d && forall i | d <= i < |log| :: Keys(log[d..])[i - d] == log[i].key
    ensures d < |log| ==> Keys(log[d..])[1..] == Keys(log[d + 1..])
  {
  }

  lemma WithoutFirst(order: seq<string>)
    requires order != [] && Distinct(order)
    ensures order[0] in Elements(order) && Elements(order[1..]) == Elements(order) - {order[0]}
    ensures Distinct(order[1..]) && order[0] !in order[1..]
  {
    assert order == [order[0]] + order[1..];
  }

  lemma SuffixSize(log: seq<Entry>, d: nat, replay: map<string, int>, order: seq<string>, limit: int)
    requires Holds(log, d, replay, order) && log != [] && limit >= 1
    requires TrimmedTo(log, d, limit)
    ensures |order| <= limit
  {
    if d < |log| {
      assert Live(log, d, limit);
    }
  }

  // ---- whole runs of requests ----

  /** A signed request as received. `allowed` says whether session, claims and signature are accepted. */
  datatype Request = Request(userId: string, event: string, nonce: string, timestamp: int, allowed: bool, now: int)

  function ReplayKey(r: Request): string {
    r.userId + ":" + r.event + ":" + r.nonce
  }

  /** Requests that lack one of these are refused first. */
  predicate WellFormed(r: Request) {
    r.userId != "" && r.event != "" && r.nonce != "" && r.timestamp != 0
  }

  predicate Fresh(r: Request) {
    r.now - MAX_SKEW <= r.timestamp * NANOS_PER_MILLI <= r.now + MAX_SKEW
  }

  predicate Accepted(log: seq<Entry>, r: Request, limit: int) {
    WellFormed(r) && Fresh(r) && r.allowed && !Known(log, ReplayKey(r), limit)
  }

  function LogAfter(log: seq<Entry>, r: Request, limit: int): seq<Entry> {
    if Accepted(log, r, limit) then log + [Entry(ReplayKey(r), r.now)] else log
  }

  function LogAfterAll(log: seq<Entry>, rs: seq<Request>, limit: int): seq<Entry> {
    if rs == [] then log else LogAfter(LogAfterAll(log, rs[..|rs| - 1], limit), rs[|rs| - 1], limit)
  }

  /** Requests arrive in time order, not before the last acceptance. */
  predicate InOrder(log: seq<Entry>, rs: seq<Request>) {
    && Ordered(log)
    && (forall i, j | 0 <= i < j < |rs| :: rs[i].now <= rs[j].now)
    && (log != [] ==> forall i | 0 <= i < |rs| :: log[|log| - 1].time <= rs[i].now)
  }

  /** `verifySignedMutation`: fields, freshness, the checks behind `allowed`, replay. */
  method VerifySigned(guard: ReplayGuard, r: Request) returns (ok: bool)
    requires guard.Valid() && (guard.log != [] ==> guard.log[|guard.log| - 1].time <= r.now)
    modifies guard
    ensures guard.Valid()
    ensures ok <==> Accepted(old(guard.log), r, guard.authReplayLimit)
    ensures guard.log == LogAfter(old(guard.log), r, guard.authReplayLimit)
  {
    if r.userId == "" || r.event == "" || r.nonce == "" || r.timestamp == 0 {
      return false;
    }
    if r.timestamp * NANOS_PER_MILLI < r.now - MAX_SKEW || r.timestamp * NANOS_PER_MILLI > r.now + MAX_SKEW {
      return false;
    }
    if !r.allowed {
      return false;
    }
    ok := guard.MarkReplay(ReplayKey(r), r.now);
  }

  lemma LogAfterGrows(log: seq<Entry>, r: Request, limit: int)
    requires Ordered(log) && (log != [] ==> log[|log| - 1].time <= r.now)
    ensures var l := LogAfter(log, r, limit);
      log <= l && Ordered(l) && (l != [] ==> l[|l| - 1].time <= r.now)
      && (log != [] ==> log[|log| - 1].time <= l[|l| - 1].time)
  {
    hide Accepted;
  }

  /** The log only grows, in time order. */
  lemma {:induction false} LogGrows(log: seq<Entry>, rs: seq<Request>, limit: int)
    requires InOrder(log, rs)
    ensures log <= LogAfterAll(log, rs, limit) && Ordered(LogAfterAll(log, rs, limit))
    ensures var l := LogAfterAll(log, rs, limit); l != [] && rs != [] ==> l[|l| - 1].time <= rs[|rs| - 1].now
    ensures var l := LogAfterAll(log, rs, limit); log != [] ==> log[|log| - 1].time <= l[|l| - 1].time
  {
    hide Accepted;
    if rs != [] {
      var rest := rs[..|rs| - 1];
      LogGrows(log, rest, limit);
      assert rest != [] ==> rest[|rest| - 1].now <= rs[|rs| - 1].now;
      LogAfterGrows(LogAfterAll(log, rest, limit), rs[|rs| - 1], limit);
    }
  }

  /** An accepted key is refused while it is less than five minutes old and fewer than `limit` later
      keys were accepted. */
  lemma {:induction false} AcceptedKeyRefused(log: seq<Entry>, rs: seq<Request>, limit: int, i: int, r: Request)
    requires InOrder(log, rs + [r]) && 0 <= i < |LogAfterAll(log, rs, limit)|
    requires var l := LogAfterAll(log, rs, limit);
      l[i].key == ReplayKey(r) && r.now - l[i].time < MAX_SKEW && |l| - 1 - i < limit
    ensures !Accepted(LogAfterAll(log, rs, limit), r, limit)
  {
    var l := LogAfterAll(log, rs, limit);
    assert forall k | 0 <= k < |rs| :: (rs + [r])[k] == rs[k];
    assert (rs + [r])[|rs|] == r;
    LogGrows(log, rs, limit);
    assert Live(l, i, limit);
  }

  /** How an envelope may come back: with the same replay key and timestamp, in time order after any
      other requests of which fewer than `limit` were accepted. */
  ghost predicate ComesBack(log: seq<Entry>, r: Request, rs: seq<Request>, again: Request, limit: int) {
    var after := LogAfter(log, r, limit);
    && InOrder(after, rs + [again])
    && again.timestamp == r.timestamp && ReplayKey(again) == ReplayKey(r)
    && |LogAfterAll(after, rs, limit)| - |after| < limit
  }

  ghost predicate NeverAcceptedAgain(log: seq<Entry>, r: Request, limit: int) {
    forall rs, again | ComesBack(log, r, rs, again, limit) ::
      !Accepted(LogAfterAll(LogAfter(log, r, limit), rs, limit), again, limit)
  }

  /** An envelope stamped before its acceptance is never accepted twice: it goes stale before its key
      is forgotten. */
  lemma StampedBeforeIsSafe(log: seq<Entry>, r: Request, limit: int)
    requires Accepted(log, r, limit) && r.timestamp * NANOS_PER_MILLI < r.now
    ensures NeverAcceptedAgain(log, r, limit)
  {
    var after := LogAfter(log, r, limit);
    forall rs, again | ComesBack(log, r, rs, again, limit)
      ensures !Accepted(LogAfterAll(after, rs, limit), again, limit)
    {
      if Fresh(again) {
        assert forall k | 0 <= k < |rs| :: (rs + [again])[k] == rs[k];
        LogGrows(after, rs, limit);
        assert LogAfterAll(after, rs, limit)[|log|] == after[|log|];
        AcceptedKeyRefused(after, rs, limit, |log|, again);
      }
    }
  }

  /** An envelope stamped at or after its acceptance can outlive its key: one more acceptance exactly
      five minutes later trims the key while the envelope is still fresh. */
  lemma StampedAheadComesBack(log: seq<Entry>, r: Request, limit: int)
    requires Ordered(log) && (log != [] ==> log[|log| - 1].time <= r.now) && limit >= 2
    requires Accepted(log, r, limit) && r.timestamp * NANOS_PER_MILLI >= r.now
    ensures !NeverAcceptedAgain(log, r, limit)
  {
    var after, later := LogAfter(log, r, limit), r.now + MAX_SKEW;
    var other, again := Unrelated(after, r, later), r.(now := later);
    assert after == log + [Entry(ReplayKey(r), r.now)];
    SameKeyLater(r, again);
    assert again.allowed && WellFormed(r) && WellFormed(again) && other.now == later;
    hide ReplayKey, Fresh, Known, WellFormed, Unrelated, UnusedNonce;
    UnrelatedAccepted(after, r, later, limit);
    OneRequest(after, other, limit);
    Forgotten(after, Entry(ReplayKey(other), later), ReplayKey(r), limit);
    assert LogAfter(after, other, limit) == after + [Entry(ReplayKey(other), later)];
    TwoInOrder(after, other, again);
    hide LogAfter, LogAfterAll, Ordered;
    BackAgain(log, r, [other], again, limit);
  }

  lemma {:induction false} TwoInOrder(log: seq<Entry>, r: Request, again: Request)
    requires Ordered(log) && (log != [] ==> log[|log| - 1].time <= r.now) && r.now == again.now
    ensures InOrder(log, [r] + [again])
  {
    hide Ordered;
  }

  lemma {:induction false} BackAgain(log: seq<Entry>, r: Request, rs: seq<Request>, again: Request, limit: int)
    requires var after := LogAfter(log, r, limit);
      && InOrder(after, rs + [again])
      && again.timestamp == r.timestamp && ReplayKey(again) == ReplayKey(r)
      && |LogAfterAll(after, rs, limit)| - |after| < limit
      && Accepted(LogAfterAll(after, rs, limit), again, limit)
    ensures !NeverAcceptedAgain(log, r, limit)
  {
    hide InOrder, Accepted, LogAfter, LogAfterAll, ReplayKey;
    assert ComesBack(log, r, rs, again, limit);
  }

  lemma SameKeyLater(r: Request, again: Request)
    requires Fresh(r) && again == r.(now := r.now + MAX_SKEW) && r.timestamp * NANOS_PER_MILLI >= r.now
    ensures ReplayKey(again) == ReplayKey(r) && Fresh(again)
  {
  }

  lemma {:induction false} OneRequest(log: seq<Entry>, r: Request, limit: int)
    ensures LogAfterAll(log, [r], limit) == LogAfter(log, r, limit)
  {
    hide Accepted;
    assert [r][..0] == [] && LogAfterAll(log, [], limit) == log;
  }

  /** Another request of the same user for the same event, whose key is longer than any key of the log. */
  function Unrelated(log: seq<Entry>, r: Request, now: int): Request {
    var stamp := now / NANOS_PER_MILLI;
    r.(nonce := "x" + UnusedNonce(log), timestamp := if stamp == 0 then 1 else stamp, now := now)
  }

  lemma UnrelatedAccepted(log: seq<Entry>, r: Request, now: int, limit: int)
    requires WellFormed(r) && r.allowed
    ensures Accepted(log, Unrelated(log, r, now), limit)
    ensures forall i | 0 <= i < |log| :: log[i].key != ReplayKey(Unrelated(log, r, now))
  {
    UnusedNonceIsNew(log);
  }

  /** An acceptance five minutes after the last one trims everything before it. */
  lemma Forgotten(log: seq<Entry>, e: Entry, key: string, limit: int)
    requires Ordered(log) && log != [] && e.time == log[|log| - 1].time + MAX_SKEW && e.key != key
    ensures !Known(log + [e], key, limit)
  {
    var l := log + [e];
    forall i | 0 <= i < |l| && l[i].key == key ensures !Live(l, i, limit) {
      assert i < |log|;
    }
  }

  function UnusedNonce(log: seq<Entry>): string {
    seq(LongestKey(log), i => 'x')
  }

  function LongestKey(log: seq<Entry>): nat {
    if log == [] then 0
    else
      var n := LongestKey(log[..|log| - 1]);
      if n < |log[|log| - 1].key| then |log[|log| - 1].key| else n
  }

  lemma {:induction false} UnusedNonceIsNew(log: seq<Entry>)
    ensures forall i | 0 <= i < |log| :: |log[i].key| <= LongestKey(log)
  {
    if log != [] {
      UnusedNonceIsNew(log[..|log| - 1]);
    }
  }

  /** With a cap of one nothing can be accepted in between, and the key is still the last one. */
  lemma CapOfOneIsSafe(log: seq<Entry>, r: Request)
    requires Accepted(log, r, 1)
    ensures NeverAcceptedAgain(log, r, 1)
  {
    var after := LogAfter(log, r, 1);
    forall rs, again | ComesBack(log, r, rs, again, 1) ensures !Accepted(LogAfterAll(after, rs, 1), again, 1) {
      assert forall k | 0 <= k < |rs| :: (rs + [again])[k] == rs[k];
      LogGrows(after, rs, 1);
      assert LogAfterAll(after, rs, 1) == after;
      assert Live(after, |log|, 1) && after[|log|].key == ReplayKey(again);
    }
  }

  /** REPLAY. An accepted envelope can never be accepted again within the cap if and only if it was
      stamped strictly before it was accepted, or the cap is one. */
  lemma ReplaySafeExactly(log: seq<Entry>, r: Request, limit: int)
    requires Ordered(log) && (log != [] ==> log[|log| - 1].time <= r.now) && limit >= 1
    requires Accepted(log, r, limit)
    ensures NeverAcceptedAgain(log, r, limit) <==> r.timestamp * NANOS_PER_MILLI < r.now || limit == 1
  {
    if limit == 1 {
      CapOfOneIsSafe(log, r);
    } else if r.timestamp * NANOS_PER_MILLI < r.now {
      StampedBeforeIsSafe(log, r, limit);
    } else {
      StampedAheadComesBack(log, r, limit);
    }
  }
}
