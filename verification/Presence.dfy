/** Debounced leave messages (server-go/internal/server: server.go `setUser`, socket_handlers.go the
    disconnect handler and `emitDebouncedLeave`). A disconnect starts a timer; the leave message is sent
    when the timer fires and nothing has cancelled it. Every interleaving of the critical sections is a
    run, timers firing at any later moment. */
module Presence {
  import opened ChatTypes

  // ---- the critical sections ----

  datatype Core = Core(users: map<string, string>, pending: map<string, int>)

  /** The user is present; a pending leave is cancelled. */
  function UserSet(c: Core, user: string, session: string): Core {
    Core(c.users[user := session], c.pending - {user})
  }

  /** The socket's user, if it has one, is gone and a leave is pending. */
  function Disconnected(c: Core, user: string, deadline: int): Core {
    Core(c.users - {user}, c.pending[user := deadline])
  }

  /** A user is dropped without a leave message (`handleDisconnecting`, account deletion). */
  function Dropped(c: Core, user: string): Core {
    c.(users := c.users - {user})
  }

  predicate IsPending(c: Core, user: string, deadline: int) {
    user != "" && user in c.pending && c.pending[user] == deadline
  }

  /** What a timer leaves behind. */
  function Fired(c: Core, user: string, deadline: int): Core {
    if IsPending(c, user, deadline) then c.(pending := c.pending - {user}) else c
  }

  /** Whether a timer sends the leave message: the leave is still pending and the user not back. */
  predicate Sends(c: Core, user: string, deadline: int) {
    IsPending(c, user, deadline) && Lookup(c.users, user, "") == ""
  }

  class PresenceServer {
    var users: map<string, string>
    var pendingLeaveByUser: map<string, int>
    var leaveMessages: seq<string>

    ghost function State(): Core
      reads this
    {
      Core(users, pendingLeaveByUser)
    }

    constructor (loaded: map<string, string>)
      ensures State() == Core(loaded, map[]) && leaveMessages == []
    {
      users, pendingLeaveByUser, leaveMessages := loaded, map[], [];
    }

    method SetUser(user: string, session: string) returns (broadcast: bool)
      modifies this
      ensures State() == UserSet(old(State()), user, session) && leaveMessages == old(leaveMessages)
      ensures broadcast <==> !(user in old(users) && old(users)[user] == session)
    {
      broadcast := user !in users || users[user] != session;
      users := users[user := session];
      if user in pendingLeaveByUser {
        pendingLeaveByUser := pendingLeaveByUser - {user};
      }
      assert user !in old(pendingLeaveByUser) ==> old(pendingLeaveByUser) - {user} == old(pendingLeaveByUser);
    }

    /** The first user found with this socket, in any order; at most one is disconnected. */
    method Disconnect(socket: string, deadline: int) returns (user: Option<string>)
      modifies this
      ensures leaveMessages == old(leaveMessages)
      ensures user.Some? ==> user.value in old(users) && old(users)[user.value] == socket
                             && State() == Disconnected(old(State()), user.value, deadline)
      ensures user.None? ==> State() == old(State()) && forall u | u in old(users) :: old(users)[u] != socket
    {
      var unseen := users.Keys;
      while unseen != {}
        invariant State() == old(State()) && leaveMessages == old(leaveMessages) && unseen <= users.Keys
        invariant forall u | u in users && u !in unseen :: users[u] != socket
        decreases unseen
      {
        var u :| u in unseen;
        if users[u] == socket {
          users := users - {u};
          pendingLeaveByUser := pendingLeaveByUser[u := deadline];
          return Some(u);
        }
        unseen := unseen - {u};
      }
      return None;
    }

    method EmitDebouncedLeave(user: string, deadline: int)
      modifies this
      ensures State() == Fired(old(State()), user, deadline)
      ensures leaveMessages == if Sends(old(State()), user, deadline) then old(leaveMessages) + [user]
          else old(leaveMessages)
    {
      if user == "" {
        return;
      }
      if user !in pendingLeaveByUser || pendingLeaveByUser[user] != deadline {
        return;
      }
      if user in users && users[user] != "" {
        pendingLeaveByUser := pendingLeaveByUser - {user};
        return;
      }
      pendingLeaveByUser := pendingLeaveByUser - {user};
      leaveMessages := leaveMessages + [user];
    }
  }

  // ---- runs ----

  /** `Fire(d)` is the firing of the timer that event number `d`, a disconnect, started. */
  datatype Event =
    | SetUser(user: string, session: string)
    | Disconnect(user: string, socket: string, deadline: int)
    | Drop(user: string)
    | Fire(disconnect: nat)

  datatype Timer = Timer(user: string, deadline: int)

  datatype Leave = Leave(user: string, disconnect: nat)

  datatype State = State(core: Core, timers: map<nat, Timer>, leaves: seq<Leave>)

  function Next(s: State, e: Event, now: nat): State {
    match e
    case SetUser(user, session) => s.(core := UserSet(s.core, user, session))
    case Disconnect(user, socket, deadline) =>
      if user in s.core.users && s.core.users[user] == socket then
        State(Disconnected(s.core, user, deadline),
              if user != "" && deadline > 0 then s.timers[now := Timer(user, deadline)] else s.timers, s.leaves)
      else s
    case Drop(user) => s.(core := Dropped(s.core, user))
    case Fire(d) =>
      if d !in s.timers then s else
        var t := s.timers[d];
        State(Fired(s.core, t.user, t.deadline), s.timers - {d},
              if Sends(s.core, t.user, t.deadline) then s.leaves + [Leave(t.user, d)] else s.leaves)
  }

  function Run(users: map<string, string>, events: seq<Event>): State {
    if events == [] then State(Core(users, map[]), map[], [])
    else Next(Run(users, events[..|events| - 1]), events[|events| - 1], |events| - 1)
  }

  /** No user is both present and about to leave, so the branch for a quick reconnect is never taken:
      whatever is still pending when its timer fires is sent. */
  lemma {:induction false} PresentOrPending(users: map<string, string>, events: seq<Event>)
    ensures var s := Run(users, events);
      s.core.users.Keys !! s.core.pending.Keys
      && forall user, deadline :: IsPending(s.core, user, deadline) <==> Sends(s.core, user, deadline)
  {
    if events != [] {
      PresentOrPending(users, events[..|events| - 1]);
    }
  }

  /** The user has not been set since event `d`. */
  ghost predicate AwaySince(events: seq<Event>, d: nat, user: string) {
    forall i | d < i < |events| :: !(events[i].SetUser? && events[i].user == user)
  }

  /** Timers belong to disconnects, and each leave to one of them, whose timer is spent. */
  ghost predicate Recorded(s: State, events: seq<Event>) {
    && (forall d | d in s.timers :: d < |events| && events[d].Disconnect?
                                    && s.timers[d] == Timer(events[d].user, events[d].deadline) && events[d].user != "")
    && (forall i | 0 <= i < |s.leaves| :: var l := s.leaves[i];
          l.disconnect < |events| && l.disconnect !in s.timers && events[l.disconnect].Disconnect? &&
              events[l.disconnect].user == l.user)
    && (forall i, j | 0 <= i < j < |s.leaves| :: s.leaves[i].disconnect != s.leaves[j].disconnect)
  }

  /** Every leave message belongs to one disconnect of its user and each disconnect sends at most one,
      whatever the deadlines. */
  lemma {:induction false} LeavesRecorded(users: map<string, string>, events: seq<Event>)
    ensures Recorded(Run(users, events), events)
  {
    hide Fired, Sends, UserSet, Disconnected, Dropped;
    if events != [] {
      var before, e := events[..|events| - 1], events[|events| - 1];
      LeavesRecorded(users, before);
      assert forall i | 0 <= i < |before| :: before[i] == events[i];
      RecordedNext(Run(users, before), before, e);
      assert events == before + [e];
    }
  }

  lemma {:induction false} RecordedNext(s: State, before: seq<Event>, e: Event)
    requires Recorded(s, before)
    ensures Recorded(Next(s, e, |before|), before + [e])
  {
    hide Fired, Sends, UserSet, Disconnected, Dropped;
    var events := before + [e];
    assert forall i | 0 <= i < |before| :: events[i] == before[i];
    var t := Next(s, e, |before|);
  }

  lemma {:induction false} AwayNext(before: seq<Event>, e: Event, d: nat, user: string)
    requires d < |before|
    ensures AwaySince(before + [e], d, user) <==> AwaySince(before, d, user) && !(e.SetUser? && e.user == user)
  {
    var events := before + [e];
    assert forall i | 0 <= i < |before| :: events[i] == before[i];
    assert events[|before|] == e;
  }

  /** Event `k` disconnected the user, with this deadline. */
  ghost predicate Started(users: map<string, string>, events: seq<Event>, k: nat, user: string, deadline: int) {
    && k < |events|
    && events[k].Disconnect? && events[k].user == user && events[k].deadline == deadline
    && var c := Run(users, events[..k]).core; user in c.users && c.users[user] == events[k].socket
  }

  /** Event `i` fired a timer for this user and deadline. */
  ghost predicate SpentAt(users: map<string, string>, events: seq<Event>, i: nat, user: string, deadline: int) {
    && i < |events| && events[i].Fire?
    && var s := Run(users, events[..i]);
       events[i].disconnect in s.timers && s.timers[events[i].disconnect] == Timer(user, deadline)
  }

  /** The user has been away since disconnect `k`, and no timer with its deadline has fired since. */
  ghost predicate StillAway(users: map<string, string>, events: seq<Event>, k: nat, user: string, deadline: int) {
    && Started(users, events, k, user, deadline) && AwaySince(events, k, user)
    && forall i | k < i < |events| :: !SpentAt(users, events, i, user, deadline)
  }

  lemma {:induction false} StillAwayNext(users: map<string, string>, before: seq<Event>, e: Event, k: nat,
      user: string, deadline: int)
    requires k < |before|
    ensures StillAway(users, before + [e], k, user, deadline)
       <==> StillAway(users, before, k, user, deadline) && !(e.SetUser? && e.user == user)
            && !SpentAt(users, before + [e], |before|, user, deadline)
  {
    var events := before + [e];
    AwayNext(before, e, k, user);
    assert forall i | 0 <= i < |before| :: events[i] == before[i] && events[..i] == before[..i];
    hide Run, AwaySince;
    assert forall i | 0 <= i < |before| ::
        SpentAt(users, events, i, user, deadline) == SpentAt(users, before, i, user, deadline);
  }

  lemma {:induction false} StillAwayLast(users: map<string, string>, before: seq<Event>, e: Event, user: string,
        deadline: int)
    ensures StillAway(users, before + [e], |before|, user, deadline)
       <==> Started(users, before + [e], |before|, user, deadline)
  {
    hide Started, SpentAt;
  }

  lemma {:induction false} PendingKept(users: map<string, string>, before: seq<Event>, e: Event, user: string,
        deadline: int)
    requires user != "" && IsPending(Run(users, before).core, user, deadline)
    ensures IsPending(Run(users, before + [e]).core, user, deadline)
       <==> !(e.SetUser? && e.user == user) && !SpentAt(users, before + [e], |before|, user, deadline)
    ensures !Started(users, before + [e], |before|, user, deadline)
  {
    var events := before + [e];
    assert events[..|events| - 1] == before && events[|before|] == e;
    PresentOrPending(users, before);
  }

  lemma {:induction false} PendingBegins(users: map<string, string>, before: seq<Event>, e: Event, user: string,
        deadline: int)
    requires user != "" && !IsPending(Run(users, before).core, user, deadline)
    ensures IsPending(Run(users, before + [e]).core, user, deadline)
       <==> Started(users, before + [e], |before|, user, deadline)
  {
    var events := before + [e];
    assert events[..|events| - 1] == before && events[|before|] == e;
  }

  /** A leave is pending if and only if a disconnect with its deadline stands: the user has been away
      since and no timer for that deadline has fired. */
  lemma {:induction false} PendingExactly(users: map<string, string>, events: seq<Event>, user: string, deadline: int)
    requires user != ""
    ensures IsPending(Run(users, events).core, user, deadline)
       <==> exists k :: StillAway(users, events, k, user, deadline)
  {
    if events == [] {
      assert Run(users, events) == State(Core(users, map[]), map[], []);
    } else {
      var before, e := events[..|events| - 1], events[|events| - 1];
      assert events == before + [e];
      PendingExactly(users, before, user, deadline);
      forall k: nat | k < |before|
        ensures StillAway(users, events, k, user, deadline)
           <==> StillAway(users, before, k, user, deadline) && !(e.SetUser? && e.user == user)
                && !SpentAt(users, events, |before|, user, deadline)
      {
        StillAwayNext(users, before, e, k, user, deadline);
      }
      StillAwayLast(users, before, e, user, deadline);
      PendingStep(users, before, e, user, deadline);
    }
  }

  lemma {:induction false} PendingStep(users: map<string, string>, before: seq<Event>, e: Event, user: string,
        deadline: int)
    requires user != ""
    ensures IsPending(Run(users, before + [e]).core, user, deadline)
       <==> if IsPending(Run(users, before).core, user, deadline)
            then !(e.SetUser? && e.user == user) && !SpentAt(users, before + [e], |before|, user, deadline)
            else Started(users, before + [e], |before|, user, deadline)
    ensures IsPending(Run(users, before).core, user, deadline)
        ==> !Started(users, before + [e], |before|, user, deadline)
  {
    hide IsPending, Run, Started, SpentAt;
    if IsPending(Run(users, before).core, user, deadline) {
      PendingKept(users, before, e, user, deadline);
    } else {
      PendingBegins(users, before, e, user, deadline);
    }
  }

  lemma {:induction false} TimersStarted(users: map<string, string>, events: seq<Event>, d: nat)
    requires d in Run(users, events).timers
    ensures var t := Run(users, events).timers[d]; Started(users, events, d, t.user, t.deadline) && t.user != ""
  {
    if events != [] {
      var before, e := events[..|events| - 1], events[|events| - 1];
      assert events == before + [e];
      if d < |before| {
        LeavesRecorded(users, before);
        LeavesRecorded(users, events);
        TimersStarted(users, before, d);
        assert events[..d] == before[..d] && events[d] == before[d];
      } else {
        LeavesRecorded(users, events);
        LeavesRecorded(users, before);
      }
    }
  }

  /** A user who disconnected is present again only after being set. */
  lemma {:induction false} GoneUntilSet(users: map<string, string>, events: seq<Event>, d: nat, user: string,
        deadline: int)
    requires Started(users, events, d, user, deadline) && AwaySince(events, d, user)
    ensures user !in Run(users, events).core.users
  {
    var before, e := events[..|events| - 1], events[|events| - 1];
    assert events == before + [e];
    if d < |before| {
      AwayNext(before, e, d, user);
      assert events[..d] == before[..d] && events[d] == before[d];
      GoneUntilSet(users, before, d, user, deadline);
    }
  }

  lemma {:induction false} BackBetween(users: map<string, string>, events: seq<Event>, d: nat, k: nat, user: string,
        deadline: int)
    requires d < k && Started(users, events, d, user, deadline) && Started(users, events, k, user, deadline)
    ensures !AwaySince(events, d, user)
  {
    if AwaySince(events, d, user) {
      var early := events[..k];
      assert early[..d] == events[..d] && early[d] == events[d];
      assert forall i | 0 <= i < |early| :: early[i] == events[i];
      GoneUntilSet(users, early, d, user, deadline);
    }
  }

  /** The timer of disconnect `d` has a leave to announce: its own, or the one of a later disconnect
      with the same deadline. */
  ghost predicate Announces(users: map<string, string>, events: seq<Event>, d: nat, t: Timer) {
    StillAway(users, events, d, t.user, t.deadline)
      || exists k :: k > d && StillAway(users, events, k, t.user, t.deadline)
  }

  /** In the first case the user has been away since, and no timer has spent the deadline; in the
      second the user came back, so the leave of the later disconnect is announced too early. */
  lemma {:induction false} AnnouncesExactly(users: map<string, string>, events: seq<Event>, d: nat)
    requires d in Run(users, events).timers
    ensures var s := Run(users, events); var t := s.timers[d];
      && (Sends(s.core, t.user, t.deadline) <==> Announces(users, events, d, t))
      && (StillAway(users, events, d, t.user, t.deadline) <==>
          AwaySince(events, d, t.user) && forall i | d < i < |events| :: !SpentAt(users, events, i, t.user, t.deadline))
      && forall k | k > d && StillAway(users, events, k, t.user, t.deadline) :: !AwaySince(events, d, t.user)
  {
    var s := Run(users, events);
    var t := s.timers[d];
    TimersStarted(users, events, d);
    PresentOrPending(users, events);
    PendingExactly(users, events, t.user, t.deadline);
    hide Run, Started, SpentAt, IsPending, Sends;
    forall k: nat | k < d && StillAway(users, events, k, t.user, t.deadline)
      ensures StillAway(users, events, d, t.user, t.deadline)
    {
    }
    forall k: nat | k > d && StillAway(users, events, k, t.user, t.deadline)
      ensures !AwaySince(events, d, t.user)
    {
      BackBetween(users, events, d, k, t.user, t.deadline);
    }
  }

  /** WHATEVER THE DEADLINES. A step sends a leave message if and only if it fires the timer of a
      disconnect that stands, or of one whose deadline a later standing disconnect shares. */
  lemma {:induction false} LeaveForAnyDeadlines(users: map<string, string>, events: seq<Event>, e: Event)
    ensures var s, t := Run(users, events), Run(users, events + [e]);
      t.leaves == if e.Fire? && e.disconnect in s.timers &&
          Announces(users, events, e.disconnect, s.timers[e.disconnect])
                  then s.leaves + [Leave(s.timers[e.disconnect].user, e.disconnect)] else s.leaves
  {
    var all := events + [e];
    assert all[..|all| - 1] == events && all[|all| - 1] == e;
    if e.Fire? && e.disconnect in Run(users, events).timers {
      AnnouncesExactly(users, events, e.disconnect);
    }
    hide Announces, Sends;
  }

  /** No user's disconnects share a deadline. */
  ghost predicate DistinctDeadlines(events: seq<Event>) {
    forall i, j | 0 <= i < j < |events| && events[i].Disconnect? && events[j].Disconnect? &&
        events[i].user == events[j].user ::
      events[i].deadline != events[j].deadline
  }

  lemma {:induction false} NotYetFired(users: map<string, string>, events: seq<Event>, d: nat, i: nat)
    requires d in Run(users, events).timers && d < i < |events|
    ensures events[i] != Fire(d)
  {
    var before, e := events[..|events| - 1], events[|events| - 1];
    assert events == before + [e];
    if i < |before| {
      NotYetFired(users, before, d, i);
      assert before[i] == events[i];
    }
  }

  lemma {:induction false} DistinctUnspent(users: map<string, string>, events: seq<Event>, d: nat, i: nat)
    requires DistinctDeadlines(events) && d in Run(users, events).timers && d < i < |events|
    ensures var t := Run(users, events).timers[d]; !SpentAt(users, events, i, t.user, t.deadline)
  {
    var t := Run(users, events).timers[d];
    TimersStarted(users, events, d);
    NotYetFired(users, events, d, i);
    hide Run;
    if SpentAt(users, events, i, t.user, t.deadline) {
      var early := events[..i];
      TimersStarted(users, early, events[i].disconnect);
    }
  }

  /** With distinct deadlines, a timer that fires sends the leave message of its disconnect if and only
      if its user was not set in between; nothing else sends one. */
  lemma {:induction false} LeaveExactly(users: map<string, string>, events: seq<Event>, e: Event)
    requires DistinctDeadlines(events)
    ensures var s, t := Run(users, events), Run(users, events + [e]);
      t.leaves == if e.Fire? && e.disconnect in s.timers && AwaySince(events, e.disconnect, s.timers[e.disconnect].user)
                  then s.leaves + [Leave(s.timers[e.disconnect].user, e.disconnect)] else s.leaves
  {
    LeaveForAnyDeadlines(users, events, e);
    if e.Fire? && e.disconnect in Run(users, events).timers {
      var d, t := e.disconnect, Run(users, events).timers[e.disconnect];
      AnnouncesExactly(users, events, d);
      TimersStarted(users, events, d);
      hide Run, AwaySince;
      forall i | d < i < |events| ensures !SpentAt(users, events, i, t.user, t.deadline) {
        DistinctUnspent(users, events, d, i);
      }
      hide SpentAt;
    }
  }

  /** If two disconnects share a deadline, the first one's timer announces a leave although its user
      came back in between. */
  lemma SharedDeadlineMisleads(user: string, a: string, b: string, deadline: int)
    requires user != "" && deadline > 0
    ensures var events := [Disconnect(user, a, deadline), SetUser(user, b), Disconnect(user, b, deadline), Fire(0)];
      Run(map[user := a], events).leaves == [Leave(user, 0)] && !AwaySince(events[..3], 0, user)
  {
    var events := [Disconnect(user, a, deadline), SetUser(user, b), Disconnect(user, b, deadline), Fire(0)];
    assert events[..3][..2] == events[..2] && events[..2][..1] == events[..1] && events[..1][..0] == [];
    var users := map[user := a];
    assert Run(users, events[..0]) == State(Core(users, map[]), map[], []);
    assert Run(users, events[..1]) == State(Core(map[], map[user := deadline]), map[0 := Timer(user, deadline)], []);
    assert Run(users, events[..2]) == State(Core(map[user := b], map[]), map[0 := Timer(user, deadline)], []);
    assert Run(users, events[..3]) ==
        State(Core(map[], map[user := deadline]), map[0 := Timer(user, deadline), 2 := Timer(user, deadline)], []);
    assert events[1].SetUser? && events[..3][1] == events[1];
  }

  // ---- who is present ----

  /** The event ends the user's session: it sets the user anew, drops it, or disconnects this socket. */
  predicate Ends(e: Event, user: string, session: string) {
    || (e.SetUser? && e.user == user)
    || (e.Drop? && e.user == user)
    || (e.Disconnect? && e.user == user && e.socket == session)
  }

  /** The user was given the session by event `k`, or before the run if `k` is -1, and it has not ended. */
  ghost predicate SessionStands(users: map<string, string>, events: seq<Event>, k: int, user: string, session: string) {
    && -1 <= k < |events|
    && (if k == -1 then user in users && users[user] == session else events[k] == SetUser(user, session))
    && forall i | k < i < |events| :: !Ends(events[i], user, session)
  }

  lemma {:induction false} SessionStandsNext(users: map<string, string>, before: seq<Event>, e: Event, k: int,
        user: string, session: string)
    requires -1 <= k < |before|
    ensures SessionStands(users, before + [e], k, user, session)
       <==> SessionStands(users, before, k, user, session) && !Ends(e, user, session)
  {
    hide Ends;
    var events := before + [e];
    assert events[|before|] == e && forall i | 0 <= i < |before| :: events[i] == before[i];
  }

  /** WHO IS PRESENT. A user is present with a socket if and only if that socket was the last one the user
      was set with, and the user was neither dropped nor disconnected from that very socket since: a
      disconnect of another socket of the user does nothing. */
  lemma {:induction false} PresentExactly(users: map<string, string>, events: seq<Event>, user: string, session: string)
    ensures var c := Run(users, events).core;
      user in c.users && c.users[user] == session <==> exists k :: SessionStands(users, events, k, user, session)
  {
    if events == [] {
      assert SessionStands(users, events, -1, user, session) <==> user in users && users[user] == session;
    } else {
      var before, e := events[..|events| - 1], events[|events| - 1];
      assert events == before + [e];
      PresentExactly(users, before, user, session);
      forall k | -1 <= k < |before|
        ensures SessionStands(users, events, k, user, session)
           <==> SessionStands(users, before, k, user, session) && !Ends(e, user, session)
      {
        SessionStandsNext(users, before, e, k, user, session);
      }
      assert SessionStands(users, events, |before|, user, session) <==> e == SetUser(user, session);
      PresentNext(Run(users, before), e, |before|, user, session);
      hide Run, Ends;
      if k :| SessionStands(users, before, k, user, session) && !Ends(e, user, session) {
        assert SessionStands(users, events, k, user, session);
      }
    }
  }

  lemma {:induction false} PresentNext(s: State, e: Event, now: nat, user: string, session: string)
    ensures var t := Next(s, e, now);
      user in t.core.users && t.core.users[user] == session <==>
      e == SetUser(user, session)
      || (user in s.core.users && s.core.users[user] == session && !Ends(e, user, session))
  {
  }
}
