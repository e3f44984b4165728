/** One row of the `messages` table, the conditional upsert of a full save and the history trigger
    (server-go/internal/server/sqlite_store.go). JSON columns hold the value they encode. */
module StoreSchema {
  import opened ChatTypes
  import opened Text

  datatype MessageRow = MessageRow(
    roomId: string,
    userId: string,
    createdAt: int,
    content: Option<string>,
    keyTransferPackage: Option<string>,
    keyTransferFrom: Option<string>,
    encryptedMessage: Option<string>,
    encryptedFor: Option<map<string, string>>,
    versions: Option<seq<MessageVersion>>,
    currentVersion: Option<int>,
    visibleTo: Option<seq<string>>,
    replyTo: Option<int>,
    voteTotal: Option<int>,
    userVotes: Option<map<string, string>>,
    edited: bool,
    deleted: bool)

  /** `nullableText`: blank text is stored as NULL. */
  function NullableText(s: string): Option<string> {
    if Blank(s) then None else Some(s)
  }

  /** SQL's COALESCE with a default. */
  function Coalesce<T>(column: Option<T>, default: T): T {
    if column.Some? then column.value else default
  }

  /** The row a full save writes: the encrypted message is stored as it is, even when blank. */
  function FullRow(m: Message): MessageRow {
    MessageRow(m.roomId, m.userId, m.timestamp, NullableText(m.content),
               NullableText(m.keyTransferPackage), NullableText(m.keyTransferFrom),
               Some(m.encryptedMessage), m.encryptedFor, m.versions, m.currentVersion,
               m.visibleTo, m.replyTo, m.voteTotal, m.userVotes, m.edited, m.deleted)
  }

  /** The row an incremental save writes. */
  function IncrementalRow(m: Message): MessageRow {
    FullRow(m).(encryptedMessage := NullableText(m.encryptedMessage))
  }

  /** The message `Load` builds from a row. */
  function LoadRow(id: string, row: MessageRow, username: string): Message {
    Message(id, row.createdAt, username, row.userId, row.roomId, Coalesce(row.content, ""),
            Coalesce(row.keyTransferPackage, ""), Coalesce(row.keyTransferFrom, ""),
            Coalesce(row.encryptedMessage, ""), row.encryptedFor, row.versions,
            row.currentVersion, row.visibleTo, row.replyTo, row.voteTotal, row.userVotes,
            row.edited, row.deleted)
  }

  /** The WHERE clause of the upsert. JSON text is never empty, so for JSON columns
      `COALESCE(a, '') <> COALESCE(b, '')` is plain inequality. */
  predicate Differs(prior: MessageRow, next: MessageRow) {
    || prior.roomId != next.roomId
    || prior.userId != next.userId
    || prior.createdAt != next.createdAt
    || Coalesce(prior.content, "") != Coalesce(next.content, "")
    || Coalesce(prior.keyTransferPackage, "") != Coalesce(next.keyTransferPackage, "")
    || Coalesce(prior.keyTransferFrom, "") != Coalesce(next.keyTransferFrom, "")
    || Coalesce(prior.encryptedMessage, "") != Coalesce(next.encryptedMessage, "")
    || prior.encryptedFor != next.encryptedFor
    || prior.versions != next.versions
    || Coalesce(prior.currentVersion, -1) != Coalesce(next.currentVersion, -1)
    || prior.visibleTo != next.visibleTo
    || Coalesce(prior.replyTo, -1) != Coalesce(next.replyTo, -1)
    || Coalesce(prior.voteTotal, -1) != Coalesce(next.voteTotal, -1)
    || prior.userVotes != next.userVotes
    || prior.edited != next.edited
    || prior.deleted != next.deleted
  }

  /** The WHEN clause of the history trigger. */
  predicate Archives(prior: MessageRow, next: MessageRow) {
    || Coalesce(prior.content, "") != Coalesce(next.content, "")
    || Coalesce(prior.keyTransferPackage, "") != Coalesce(next.keyTransferPackage, "")
    || Coalesce(prior.keyTransferFrom, "") != Coalesce(next.keyTransferFrom, "")
    || Coalesce(prior.encryptedMessage, "") != Coalesce(next.encryptedMessage, "")
    || prior.encryptedFor != next.encryptedFor
    || prior.versions != next.versions
    || Coalesce(prior.currentVersion, -1) != Coalesce(next.currentVersion, -1)
    || prior.visibleTo != next.visibleTo
    || Coalesce(prior.replyTo, -1) != Coalesce(next.replyTo, -1)
    || prior.edited != next.edited
    || prior.deleted != next.deleted
  }

  /** INSERT ... ON CONFLICT DO UPDATE ... WHERE on an existing row. */
  function Upsert(prior: MessageRow, next: MessageRow): MessageRow {
    if Differs(prior, next) then next else prior
  }

  /** The rows the trigger archives when `next` is upserted over `prior`. */
  function Archived(prior: MessageRow, next: MessageRow): seq<MessageRow> {
    if Differs(prior, next) && Archives(prior, next) then [prior] else []
  }

  // ---- the guard is exact up to the -1 default of the integer columns ----

  /** Two integer columns the WHERE clause cannot tell apart: one NULL, the other -1. */
  predicate Conflated(a: Option<int>, b: Option<int>) {
    a != b && Coalesce(a, -1) == Coalesce(b, -1)
  }

  predicate RowsConflated(prior: MessageRow, next: MessageRow) {
    || Conflated(prior.currentVersion, next.currentVersion)
    || Conflated(prior.replyTo, next.replyTo)
    || Conflated(prior.voteTotal, next.voteTotal)
  }

  /** What the guarded upsert leaves loads as the new row would, except exactly when the guard
      suppressed the write and an integer column went between NULL and -1. The guard never lets
      through a write that changes nothing a reader can see. */
  lemma GuardedUpsertExact(id: string, prior: MessageRow, next: MessageRow, username: string)
    ensures LoadRow(id, Upsert(prior, next), username) == LoadRow(id, next, username)
       <==> (Differs(prior, next) || !RowsConflated(prior, next))
    ensures Differs(prior, next) ==> LoadRow(id, prior, username) != LoadRow(id, next, username)
  {
    if !Differs(prior, next) && !RowsConflated(prior, next) {
      assert prior.currentVersion == next.currentVersion && prior.replyTo == next.replyTo
             && prior.voteTotal == next.voteTotal;
    }
  }

  /** What every message of the running server satisfies (`MessageLifecycle.ServerMessagesSettled`):
      a vote total goes with a vote map, and the current version is unset or 0. */
  predicate Settled(voteTotal: Option<int>, userVotes: Option<map<string, string>>, currentVersion: Option<int>) {
    (voteTotal.None? <==> userVotes.None?) && (currentVersion.None? || currentVersion.value == 0)
  }

  predicate SettledRow(row: MessageRow) {
    Settled(row.voteTotal, row.userVotes, row.currentVersion)
  }

  /** For settled rows with the same reply target the guard is invisible to `Load`. */
  lemma SettledGuardExact(id: string, prior: MessageRow, next: MessageRow, username: string)
    requires SettledRow(prior) && SettledRow(next) && prior.replyTo == next.replyTo
    ensures LoadRow(id, Upsert(prior, next), username) == LoadRow(id, next, username)
  {
    GuardedUpsertExact(id, prior, next, username);
    if Conflated(prior.voteTotal, next.voteTotal) {
      assert prior.userVotes.None? != next.userVotes.None?;
      assert prior.userVotes != next.userVotes;
    }
  }

  /** Without the pairing the guard does lose an update: a total of -1 over NULL. */
  lemma UnsettledGuardLosesUpdate(id: string, row: MessageRow, username: string)
    requires row.voteTotal == None
    ensures var voted := row.(voteTotal := Some(-1));
      LoadRow(id, Upsert(row, voted), username) != LoadRow(id, voted, username)
  {
    GuardedUpsertExact(id, row, row.(voteTotal := Some(-1)), username);
  }

  // ---- tracked content ----

  /** The content whose changes the history keeps, NULL read as empty. */
  datatype Tracked = Tracked(
    content: string,
    keyTransferPackage: string,
    keyTransferFrom: string,
    encryptedMessage: string,
    encryptedFor: Option<map<string, string>>,
    versions: Option<seq<MessageVersion>>,
    currentVersion: int,
    visibleTo: Option<seq<string>>,
    replyTo: int,
    edited: bool,
    deleted: bool)

  function TrackedOf(row: MessageRow): Tracked {
    Tracked(Coalesce(row.content, ""), Coalesce(row.keyTransferPackage, ""),
            Coalesce(row.keyTransferFrom, ""), Coalesce(row.encryptedMessage, ""),
            row.encryptedFor, row.versions, Coalesce(row.currentVersion, -1), row.visibleTo,
            Coalesce(row.replyTo, -1), row.edited, row.deleted)
  }

  /** The row left by an upsert has the tracked content of the new row, and the old row is archived
      exactly when that content changed. */
  lemma UpsertTracks(prior: MessageRow, next: MessageRow)
    ensures TrackedOf(Upsert(prior, next)) == TrackedOf(next)
    ensures Archived(prior, next) == if TrackedOf(prior) != TrackedOf(next) then [prior] else []
  {
    var a, b := TrackedOf(prior), TrackedOf(next);
    if !Archives(prior, next) {
      assert a.content == b.content && a.currentVersion == b.currentVersion && a.replyTo == b.replyTo;
      assert a == b;
    }
  }

  /** Incremental and full rows load alike once blank text is read as empty. */
  function Unblank(m: Message): Message {
    m.(content := Coalesce(NullableText(m.content), ""),
       keyTransferPackage := Coalesce(NullableText(m.keyTransferPackage), ""),
       keyTransferFrom := Coalesce(NullableText(m.keyTransferFrom), ""),
       encryptedMessage := Coalesce(NullableText(m.encryptedMessage), ""))
  }

  lemma UnblankTwice(m: Message)
    ensures Unblank(Unblank(m)) == Unblank(m)
  {
    TrimResult("", IsSpace);
    assert Blank("");
  }

  /** Saving and loading one message gives it back, blank text read as empty: exactly, for a full
      row, apart from an encrypted message that is blank but not empty. */
  lemma RowRoundTrip(m: Message, username: string)
    ensures LoadRow(m.id, IncrementalRow(m), username) == Unblank(m).(username := username)
    ensures LoadRow(m.id, FullRow(m), username)
         == Unblank(m).(username := username, encryptedMessage := m.encryptedMessage)
    ensures Unblank(LoadRow(m.id, FullRow(m), username)) == Unblank(m).(username := username)
  {
    UnblankTwice(m);
    assert Blank("");
  }
}
