/** Whole runs of saves: the message history loses nothing, and the conditional upsert stays exact. */
module StoreRuns {
  import opened ChatTypes
  import opened Text
  import opened StoreSchema
  import opened StoreSpec
  import opened StoreRoundTrip

  /** One successful save. */
  datatype Step =
    | FullStep(s: Snapshot, env: SaveEnv, names: seq<string>)
    | InsertStep(m: Message, meta: Metadata, now: int)

  ghost predicate Steps(t: Tables, step: Step, t': Tables) {
    match step
    case FullStep(s, env, names) => Saved(t, s, env, names, t')
    case InsertStep(m, meta, now) => Insertable(t, m, meta) && t' == InsertMessage(t, m, meta, now)
  }

  /** `ts` are the databases before, between and after the saves. */
  ghost predicate Run(ts: seq<Tables>, steps: seq<Step>) {
    |ts| == |steps| + 1 && forall i | 0 <= i < |steps| :: Steps(ts[i], steps[i], ts[i + 1])
  }

  /** Full saves are of storable snapshots. */
  ghost predicate AllStorable(steps: seq<Step>) {
    forall i | 0 <= i < |steps| && steps[i].FullStep? :: Storable(steps[i].s, steps[i].env)
  }

  /** Every database of a run is consistent if the first one is. */
  lemma {:induction false} RunConsistent(ts: seq<Tables>, steps: seq<Step>, i: nat)
    requires Run(ts, steps) && Consistent(ts[0]) && AllStorable(steps) && i <= |steps|
    ensures Consistent(ts[i])
  {
    hide Consistent; hide Saved; hide Insertable; hide Storable; hide InsertMessage;
    if i > 0 {
      RunConsistent(ts, steps, i - 1);
      assert Steps(ts[i - 1], steps[i - 1], ts[i]);
      match steps[i - 1]
      case FullStep(s, env, names) => SavedConsistent(ts[i - 1], s, env, names, ts[i]);
      case InsertStep(m, meta, now) => InsertConsistent(ts[i - 1], m, meta, now);
    }
  }

  // ---- history ----

  function Track(rows: seq<MessageRow>): seq<Tracked> {
    seq(|rows|, i requires 0 <= i < |rows| => TrackedOf(rows[i]))
  }

  /** Archived contents of a message in insertion order, then its current content. */
  function Chain(t: Tables, id: string): seq<Tracked> {
    Track(HistoryOf(t.history, id)) + if id in t.messages then [TrackedOf(t.messages[id])] else []
  }

  /** Appends unless it repeats the last element. */
  function Extend(c: seq<Tracked>, x: Tracked): seq<Tracked> {
    if c != [] && c[|c| - 1] == x then c else c + [x]
  }

  /** The contents of a message in a run of saves: what each save that names it wrote. */
  ghost predicate WritesContent(step: Step, m: Message) {
    match step
    case FullStep(s, env, _) => m in Contents(s, env)
    case InsertStep(n, _, _) => m == n
  }

  /** The message is saved by every full save, and inserted only by the given step values. */
  ghost predicate LiveThrough(steps: seq<Step>, id: string, versions: seq<Option<Message>>) {
    && |versions| == |steps|
    && forall i | 0 <= i < |steps| ::
         match versions[i]
         case Some(m) => m.id == id && WritesContent(steps[i], m)
         case None => steps[i].InsertStep? && steps[i].m.id != id
  }

  /** The row a save writes for a message it names. */
  function RowWritten(step: Step, m: Message): MessageRow {
    if step.FullStep? then FullRow(m) else IncrementalRow(m)
  }

  /** What the saves of a run wrote for one message, with immediate repetitions dropped. */
  function Successive(c: seq<Tracked>, steps: seq<Step>, versions: seq<Option<Message>>): seq<Tracked>
    requires |steps| == |versions|
  {
    if versions == [] then c
    else
      var n := |versions| - 1;
      var before := Successive(c, steps[..n], versions[..n]);
      match versions[n]
      case None => before
      case Some(m) => Extend(before, TrackedOf(RowWritten(steps[n], m)))
  }

  predicate NoRepeats(c: seq<Tracked>) {
    forall i | 0 <= i < |c| - 1 :: c[i] != c[i + 1]
  }

  /** The incremental save writes the content a full save would write, except exactly when the
      encrypted message is blank but not empty. */
  lemma IncrementalTracked(m: Message)
    ensures TrackedOf(IncrementalRow(m)) == TrackedOf(FullRow(m))
       <==> (!Blank(m.encryptedMessage) || m.encryptedMessage == "")
  {
  }

  /** A save that writes `m` extends the chain of its message by what it writes, if that changed. */
  lemma StepExtends(t: Tables, step: Step, t': Tables, m: Message)
    requires Consistent(t) && Steps(t, step, t') && WritesContent(step, m)
    ensures Chain(t', m.id) == Extend(Chain(t, m.id), TrackedOf(RowWritten(step, m)))
  {
    hide FullRow; hide TrackedOf; hide Contents; hide Blank; hide Insertable; hide UpsertRooms; hide UsersSaved;
    hide RoomEntries; hide RoomEnumeration; hide MergeUser; hide MergeRoom; hide IncrementalRow;
    if m.id !in t.messages {
      NoOrphanHistory(t.history, t.messages, m.id);
    }
    match step
    case FullStep(s, env, names) =>
      assert MessageSaved(t, m, t');
      if m.id in t.messages {
        UpsertTracks(t.messages[m.id], FullRow(m));
        TrackAppend(HistoryOf(t.history, m.id), Archived(t.messages[m.id], FullRow(m)));
      } else {
        assert HistoryOf(t'.history, m.id) == [];
      }
    case InsertStep(n, meta, now) =>
      InsertStepFresh(t, n, meta);
  }

  lemma InsertStepFresh(t: Tables, m: Message, meta: Metadata)
    requires Insertable(t, m, meta)
    ensures m.id !in t.messages
  {
  }

  lemma TrackAppend(a: seq<MessageRow>, b: seq<MessageRow>)
    ensures Track(a + b) == Track(a) + Track(b)
  {
  }

  lemma {:induction false} NoOrphanHistory(history: seq<HistoryRow>, messages: map<string, MessageRow>, id: string)
    requires HistoryLive(history, messages) && id !in messages
    ensures HistoryOf(history, id) == []
  {
    if history != [] {
      assert history[|history| - 1] in history;
      NoOrphanHistory(history[..|history| - 1], messages, id);
    }
  }

  /** HISTORY. Over any run of saves in which a message stays live, its archived contents followed by
      its current content are what the saves wrote in turn: nothing is lost, nothing is repeated, and a
      save that changes only votes adds nothing. */
  lemma {:induction false} HistoryLosesNothing(ts: seq<Tables>, steps: seq<Step>, id: string,
        versions: seq<Option<Message>>)
    requires Run(ts, steps) && Consistent(ts[0]) && AllStorable(steps) && LiveThrough(steps, id, versions)
    ensures Chain(ts[|steps|], id) == Successive(Chain(ts[0], id), steps, versions)
  {
    hide Consistent; hide Contents; hide Steps; hide Chain; hide Extend; hide FullRow; hide TrackedOf; hide Blank;
    hide RowWritten; hide Storable;
    if steps != [] {
      var n := |steps| - 1;
      HistoryLosesNothing(ts[..n + 1], steps[..n], id, versions[..n]);
      RunConsistent(ts, steps, n);
      assert ts[..n + 1][n] == ts[n] && Steps(ts[n], steps[n], ts[n + 1]);
      match versions[n]
      case Some(m) => StepExtends(ts[n], steps[n], ts[n + 1], m);
      case None => OtherInsert(ts[n], steps[n], ts[n + 1], id);
    }
  }

  lemma OtherInsert(t: Tables, step: Step, t': Tables, id: string)
    requires Steps(t, step, t') && step.InsertStep? && step.m.id != id
    ensures Chain(t', id) == Chain(t, id)
  {
    hide Insertable; hide MergeUser; hide MergeRoom; hide IncrementalRow; hide TrackedOf;
  }

  lemma {:induction false} SuccessiveHasNoRepeats(c: seq<Tracked>, steps: seq<Step>, versions: seq<Option<Message>>)
    requires NoRepeats(c) && |steps| == |versions|
    ensures NoRepeats(Successive(c, steps, versions))
  {
    hide RowWritten; hide TrackedOf;
    if versions != [] {
      SuccessiveHasNoRepeats(c, steps[..|versions| - 1], versions[..|versions| - 1]);
    }
  }

  /** Changing only the votes of a stored message archives nothing. */
  lemma VotesNotArchived(t: Tables, s: Snapshot, env: SaveEnv, names: seq<string>, t': Tables, m: Message)
    requires Consistent(t) && Saved(t, s, env, names, t') && m in Contents(s, env) && m.id in t.messages
    requires var r := t.messages[m.id]; r == FullRow(m).(voteTotal := r.voteTotal, userVotes := r.userVotes)
    ensures HistoryOf(t'.history, m.id) == HistoryOf(t.history, m.id)
  {
    hide Contents; hide UpsertRooms; hide UsersSaved; hide RoomEntries; hide RoomEnumeration;
    assert MessageSaved(t, m, t');
    UpsertTracks(t.messages[m.id], FullRow(m));
  }

  // ---- the conditional upsert over runs ----

  ghost predicate SettledMessages(ms: set<Message>, reply: string -> Option<int>) {
    forall m | m in ms :: Settled(m.voteTotal, m.userVotes, m.currentVersion) && m.replyTo == reply(m.id)
  }

  /** Every stored row is settled and keeps the reply target of its message. */
  ghost predicate SettledTable(t: Tables, reply: string -> Option<int>) {
    forall id | id in t.messages :: SettledRow(t.messages[id]) && t.messages[id].replyTo == reply(id)
  }

  ghost function Written(step: Step): set<Message> {
    match step
    case FullStep(s, env, _) => Contents(s, env)
    case InsertStep(m, _, _) => {m}
  }

  lemma SettledUnconflated(t: Tables, ms: set<Message>, reply: string -> Option<int>)
    requires SettledTable(t, reply) && SettledMessages(ms, reply)
    ensures Unconflated(t, ms)
  {
    forall m | m in ms && m.id in t.messages && !Differs(t.messages[m.id], FullRow(m))
      ensures !RowsConflated(t.messages[m.id], FullRow(m))
    {
      var row := t.messages[m.id];
      assert row.userVotes == m.userVotes;
    }
  }

  lemma SettledStep(t: Tables, step: Step, t': Tables, reply: string -> Option<int>)
    requires Steps(t, step, t') && SettledTable(t, reply) && SettledMessages(Written(step), reply)
    ensures SettledTable(t', reply)
  {
    hide Contents, UpsertRooms, UsersSaved, RoomEntries, RoomEnumeration, MergeUser, MergeRoom;
    hide Differs; hide Insertable;
    match step
    case FullStep(s, env, names) =>
      forall id | id in t'.messages ensures SettledRow(t'.messages[id]) && t'.messages[id].replyTo == reply(id) {
        var m :| m in Contents(s, env) && m.id == id;
        assert MessageSaved(t, m, t');
      }
    case InsertStep(m, meta, now) =>
  }

  /** Over any run of saves of settled messages from a settled database, an empty one in particular,
      whatever the guard suppresses would not have changed what is loaded. */
  lemma {:induction false} GuardExactOverRuns(ts: seq<Tables>, steps: seq<Step>, reply: string -> Option<int>, i: nat)
    requires Run(ts, steps) && i <= |steps| && SettledTable(ts[0], reply)
    requires forall k | 0 <= k < |steps| :: SettledMessages(Written(steps[k]), reply)
    ensures SettledTable(ts[i], reply)
    ensures i < |steps| ==> Unconflated(ts[i], Written(steps[i]))
    ensures i < |steps| ==> forall m, u | m in Written(steps[i]) && m.id in ts[i].messages ::
      LoadRow(m.id, Upsert(ts[i].messages[m.id], FullRow(m)), u) == LoadRow(m.id, FullRow(m), u)
  {
    hide Steps; hide LoadRow; hide Upsert; hide FullRow; hide Written; hide Unconflated;
    if i > 0 {
      GuardExactOverRuns(ts, steps, reply, i - 1);
      assert Steps(ts[i - 1], steps[i - 1], ts[i]);
      SettledStep(ts[i - 1], steps[i - 1], ts[i], reply);
    }
    if i < |steps| {
      SettledUnconflated(ts[i], Written(steps[i]), reply);
      forall m, u | m in Written(steps[i]) && m.id in ts[i].messages
        ensures LoadRow(m.id, Upsert(ts[i].messages[m.id], FullRow(m)), u) == LoadRow(m.id, FullRow(m), u)
      {
        FullRowSettled(m);
        SettledGuardExact(m.id, ts[i].messages[m.id], FullRow(m), u);
      }
    }
  }

  lemma FullRowSettled(m: Message)
    requires Settled(m.voteTotal, m.userVotes, m.currentVersion)
    ensures SettledRow(FullRow(m)) && FullRow(m).replyTo == m.replyTo
  {
  }

  /** So every full save of the run round-trips. */
  lemma RunsRoundTrip(ts: seq<Tables>, steps: seq<Step>, reply: string -> Option<int>, i: nat)
    requires Run(ts, steps) && SettledTable(ts[0], reply) && AllStorable(steps)
    requires forall k | 0 <= k < |steps| :: SettledMessages(Written(steps[k]), reply)
    requires i < |steps| && steps[i].FullStep?
    ensures var s, env, names, t := steps[i].s, steps[i].env, steps[i].names, ts[i + 1];
      && Consistent(t) && Tidy(t)
      && RoomsLoaded(s, env, names, Loaded(t)) && ListedUsersLoaded(s, Loaded(t)) && MessagesLoaded(s, env, Loaded(t))
      && (Attributed(s) ==> UsersLoaded(s, Loaded(t)))
  {
    hide Saved; hide Unconflated; hide Storable; hide SettledTable; hide SettledMessages; hide Consistent; hide Tidy;
    hide RoomsLoaded; hide ListedUsersLoaded; hide MessagesLoaded; hide UsersLoaded; hide Attributed; hide Loaded;
    GuardExactOverRuns(ts, steps, reply, i);
    assert Steps(ts[i], steps[i], ts[i + 1]);
    RoundTrip(ts[i], steps[i].s, steps[i].env, steps[i].names, ts[i + 1]);
  }
}
