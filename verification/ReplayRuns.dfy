/** Which requests of a whole run are accepted, read off the requests alone. */
module ReplayRuns {
  import opened Text
  import opened ReplayWindow

  /** The answer to request `k` of a run that starts with nothing remembered. */
  predicate AcceptedAt(rs: seq<Request>, limit: int, k: int)
    requires 0 <= k < |rs|
  {
    Accepted(LogAfterAll([], rs[..k], limit), rs[k], limit)
  }

  function AcceptedBetween(rs: seq<Request>, limit: int, j: int, k: int): set<int>
    requires 0 <= j <= k <= |rs|
  {
    set l | j <= l < k && AcceptedAt(rs, limit, l)
  }

  /** Requests that come in time order. */
  predicate TimeOrdered(rs: seq<Request>) {
    forall i, j | 0 <= i < j < |rs| :: rs[i].now <= rs[j].now
  }

  /** The accepted request `j` still blocks its repetition at `k`: every request accepted in between came
      within five minutes of it, and there were fewer than `limit`. */
  ghost predicate StillHeld(rs: seq<Request>, limit: int, j: int, k: int) {
    && 0 <= j < k <= |rs| && AcceptedAt(rs, limit, j)
    && (forall l | j < l < k && AcceptedAt(rs, limit, l) :: rs[l].now - rs[j].now < 300_000_000_000)
    && |AcceptedBetween(rs, limit, j + 1, k)| < limit
  }

  // ---- the log of a run ----

  function LogAt(rs: seq<Request>, limit: int, k: int): seq<Entry>
    requires 0 <= k <= |rs|
  {
    LogAfterAll([], rs[..k], limit)
  }

  lemma {:induction false} LogStep(rs: seq<Request>, limit: int, k: int)
    requires 0 <= k < |rs|
    ensures LogAt(rs, limit, k + 1) == if AcceptedAt(rs, limit, k)
                                       then LogAt(rs, limit, k) + [Entry(ReplayKey(rs[k]), rs[k].now)]
                                       else LogAt(rs, limit, k)
  {
    hide Accepted;
    assert rs[..k + 1][..k] == rs[..k];
  }

  lemma {:induction false} BetweenStep(rs: seq<Request>, limit: int, j: int, k: int)
    requires 0 <= j <= k < |rs|
    ensures |AcceptedBetween(rs, limit, j, k + 1)|
         == |AcceptedBetween(rs, limit, j, k)| + if AcceptedAt(rs, limit, k) then 1 else 0
  {
    hide AcceptedAt;
    var before := AcceptedBetween(rs, limit, j, k);
    assert AcceptedBetween(rs, limit, j, k + 1) == if AcceptedAt(rs, limit, k) then before + {k} else before;
  }

  /** The log holds the accepted requests in turn. */
  lemma {:induction false} LogHolds(rs: seq<Request>, limit: int, j: int, k: int)
    requires 0 <= j <= k <= |rs|
    ensures |LogAt(rs, limit, k)| == |LogAt(rs, limit, j)| + |AcceptedBetween(rs, limit, j, k)|
    ensures j < k && AcceptedAt(rs, limit, j) ==>
        |LogAt(rs, limit, j)| < |LogAt(rs, limit, k)|
        && LogAt(rs, limit, k)[|LogAt(rs, limit, j)|] == Entry(ReplayKey(rs[j]), rs[j].now)
  {
    if j == k {
      assert AcceptedBetween(rs, limit, j, k) == {};
    } else {
      hide *;
      LogHolds(rs, limit, j, k - 1);
      LogStep(rs, limit, k - 1);
      BetweenStep(rs, limit, j, k - 1);
    }
  }

  lemma {:induction false} HeldBy(rs: seq<Request>, limit: int, k: int, i: int) returns (j: int)
    requires 0 <= k <= |rs| && 0 <= i < |LogAt(rs, limit, k)|
    ensures 0 <= j < k && AcceptedAt(rs, limit, j) && |LogAt(rs, limit, j)| == i
  {
    hide AcceptedAt, LogAt, ReplayKey;
    assert k > 0 by { LogStarts(rs, limit); }
    LogStep(rs, limit, k - 1);
    if i < |LogAt(rs, limit, k - 1)| {
      j := HeldBy(rs, limit, k - 1, i);
    } else {
      j := k - 1;
    }
  }

  lemma LogStarts(rs: seq<Request>, limit: int)
    ensures LogAt(rs, limit, 0) == []
  {
  }

  /** A request is live in the log exactly while it is still held. */
  lemma {:induction false} LastAccepted(rs: seq<Request>, limit: int, j: int, k: int) returns (last: int)
    requires 0 <= j < k <= |rs| && AcceptedAt(rs, limit, j)
    ensures j <= last < k && AcceptedAt(rs, limit, last) && LogAt(rs, limit, k) != []
    ensures LogAt(rs, limit, k)[|LogAt(rs, limit, k)| - 1].time == rs[last].now
    ensures forall l | last < l < k :: !AcceptedAt(rs, limit, l)
  {
    hide *;
    LogHolds(rs, limit, j, k);
    var n := |LogAt(rs, limit, k)|;
    last := HeldBy(rs, limit, k, n - 1);
    LogHolds(rs, limit, last, k);
    LogHolds(rs, limit, last + 1, k);
    LogStep(rs, limit, last);
    NoneBetween(rs, limit, last + 1, k);
    assert last >= j by {
      if last < j { LogHolds(rs, limit, last + 1, j); }
    }
  }

  lemma {:induction false} NoneBetween(rs: seq<Request>, limit: int, j: int, k: int)
    requires 0 <= j <= k <= |rs| && |AcceptedBetween(rs, limit, j, k)| == 0
    ensures forall l | j <= l < k :: !AcceptedAt(rs, limit, l)
  {
    hide AcceptedAt;
    assert forall l | j <= l < k :: l in AcceptedBetween(rs, limit, j, k) <==> AcceptedAt(rs, limit, l);
  }

  /** A request is live in the log exactly while it is still held. */
  lemma {:induction false} LiveExactly(rs: seq<Request>, limit: int, j: int, k: int)
    requires TimeOrdered(rs) && 0 <= j < k <= |rs| && AcceptedAt(rs, limit, j)
    ensures |LogAt(rs, limit, j)| < |LogAt(rs, limit, k)|
    ensures Live(LogAt(rs, limit, k), |LogAt(rs, limit, j)|, limit) <==> StillHeld(rs, limit, j, k)
  {
    hide AcceptedAt, LogAt, ReplayKey, AcceptedBetween;
    LogHolds(rs, limit, j, k);
    LogHolds(rs, limit, j + 1, k);
    LogStep(rs, limit, j);
    var last := LastAccepted(rs, limit, j, k);
    assert last > j ==> rs[last].now >= rs[j].now;
  }

  /** ACCEPTED EXACTLY. Of requests in time order, one is accepted if and only if it names user, event,
      nonce and time, was stamped within five minutes of its arrival on either side, session, claims and
      signature were accepted, and no accepted request with the same key text is still held. */
  lemma {:induction false} AcceptedExactly(rs: seq<Request>, limit: int, k: int)
    requires TimeOrdered(rs) && 0 <= k < |rs|
    ensures var r := rs[k];
      AcceptedAt(rs, limit, k) <==>
      (&& r.userId != "" && r.event != "" && r.nonce != "" && r.timestamp != 0
       && -300_000_000_000 <= r.timestamp * 1_000_000 - r.now <= 300_000_000_000
       && r.allowed
       && !exists j :: StillHeld(rs, limit, j, k)
            && rs[j].userId + ":" + rs[j].event + ":" + rs[j].nonce == r.userId + ":" + r.event + ":" + r.nonce)
  {
    var log, r := LogAt(rs, limit, k), rs[k];
    assert Known(log, ReplayKey(r), limit)
       <==> exists j :: StillHeld(rs, limit, j, k) && ReplayKey(rs[j]) == ReplayKey(r) by {
      hide AcceptedAt, LogAt, ReplayKey, StillHeld, Live;
      if i :| 0 <= i < |log| && Live(log, i, limit) && log[i].key == ReplayKey(r) {
        var j := HeldBy(rs, limit, k, i);
        LogHolds(rs, limit, j, k);
        LiveExactly(rs, limit, j, k);
      }
      if j :| StillHeld(rs, limit, j, k) && ReplayKey(rs[j]) == ReplayKey(r) {
        HeldIsEarlier(rs, limit, j, k);
        LogHolds(rs, limit, j, k);
        LiveExactly(rs, limit, j, k);
      }
    }
    hide StillHeld, LogAfterAll, Known;
  }

  lemma HeldIsEarlier(rs: seq<Request>, limit: int, j: int, k: int)
    requires StillHeld(rs, limit, j, k)
    ensures 0 <= j < k <= |rs| && AcceptedAt(rs, limit, j)
  {
  }

  /** No user ID and no event name contains a colon. */
  predicate ColonFree(rs: seq<Request>) {
    forall i | 0 <= i < |rs| :: ':' !in rs[i].userId && ':' !in rs[i].event
  }

  lemma {:induction false} KeyTextsEqual(a: Request, b: Request)
    requires ':' !in a.userId && ':' !in a.event && ':' !in b.userId && ':' !in b.event
    ensures a.userId + ":" + a.event + ":" + a.nonce == b.userId + ":" + b.event + ":" + b.nonce
       <==> a.userId == b.userId && a.event == b.event && a.nonce == b.nonce
  {
    if a.userId + ":" + a.event + ":" + a.nonce == b.userId + ":" + b.event + ":" + b.nonce {
      var x, y := a.event + ":" + a.nonce, b.event + ":" + b.nonce;
      assert a.userId + ":" + a.event + ":" + a.nonce == a.userId + [':'] + x;
      assert b.userId + ":" + b.event + ":" + b.nonce == b.userId + [':'] + y;
      SplitAtFirst(a.userId, x, b.userId, y, ':');
      assert x == a.event + [':'] + a.nonce && y == b.event + [':'] + b.nonce;
      SplitAtFirst(a.event, a.nonce, b.event, b.nonce, ':');
    }
  }

  /** Without colons, it is the user, the event and the nonce that must not be those of a request still
      held. */
  lemma {:induction false} AcceptedExactlyByNonce(rs: seq<Request>, limit: int, k: int)
    requires TimeOrdered(rs) && ColonFree(rs) && 0 <= k < |rs|
    ensures var r := rs[k];
      AcceptedAt(rs, limit, k) <==>
      (&& r.userId != "" && r.event != "" && r.nonce != "" && r.timestamp != 0
       && -300_000_000_000 <= r.timestamp * 1_000_000 - r.now <= 300_000_000_000
       && r.allowed
       && !exists j :: StillHeld(rs, limit, j, k)
            && rs[j].userId == r.userId && rs[j].event == r.event && rs[j].nonce == r.nonce)
  {
    hide AcceptedAt, StillHeld, TimeOrdered;
    AcceptedExactly(rs, limit, k);
    forall j | StillHeld(rs, limit, j, k) ensures 0 <= j < k <= |rs| {
      HeldIsEarlier(rs, limit, j, k);
    }
    var r := rs[k];
    forall j | 0 <= j < k
      ensures rs[j].userId + ":" + rs[j].event + ":" + rs[j].nonce == r.userId + ":" + r.event + ":" + r.nonce
         <==> rs[j].userId == r.userId && rs[j].event == r.event && rs[j].nonce == r.nonce
    {
      KeyTextsEqual(rs[j], rs[k]);
    }
  }

  /** With colons two different requests can have one key: the second is refused as a repetition. */
  lemma {:induction false} ColonsCollide(timestamp: int, now: int, limit: int)
    requires timestamp != 0 && -300_000_000_000 <= timestamp * 1_000_000 - now <= 300_000_000_000 && limit >= 1
    ensures var a, b := Request("u:e", "f", "n", timestamp, true, now), Request("u", "e:f", "n", timestamp, true, now);
      AcceptedAt([a, b], limit, 0) && !AcceptedAt([a, b], limit, 1) && AcceptedAt([b], limit, 0)
  {
    hide AcceptedAt;
    var a, b := Request("u:e", "f", "n", timestamp, true, now), Request("u", "e:f", "n", timestamp, true, now);
    AcceptedExactly([a, b], limit, 0);
    AcceptedExactly([b], limit, 0);
    AcceptedExactly([a, b], limit, 1);
    assert AcceptedBetween([a, b], limit, 1, 1) == {};
    assert StillHeld([a, b], limit, 0, 1);
    assert a.userId + ":" + a.event + ":" + a.nonce == "u:e:f:n" == b.userId + ":" + b.event + ":" + b.nonce;
  }
}
