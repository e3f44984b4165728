/** Room history windows (server-go/internal/server/socket_handlers.go, utils.go): which messages a
    user may see, and reading them backwards page by page. */
module Pagination {
  import opened ChatTypes
  import opened Text
  import opened Sorting

  const DEFAULT_WINDOW_SIZE := 100

  function Filter(s: seq<Message>, p: Message -> bool): (r: seq<Message>)
    ensures forall m :: m in r <==> m in s && p(m)
    ensures |r| <= |s|
  {
    if s == [] then []
    else Filter(s[..|s| - 1], p) + if p(s[|s| - 1]) then [s[|s| - 1]] else []
  }

  // ---- what a user may see ----

  /** An empty audience means everyone. */
  predicate MaySee(m: Message, userId: string) {
    m.visibleTo.None? || m.visibleTo.value == [] || userId in m.visibleTo.value
  }

  ghost function Visible(messages: seq<Message>, userId: string): seq<Message> {
    Filter(messages, (m: Message) => MaySee(m, userId))
  }

  method FilterMessagesByVisibility(messages: seq<Message>, userId: string) returns (filtered: seq<Message>)
    ensures filtered == Visible(messages, userId)
  {
    filtered := [];
    for i := 0 to |messages|
      invariant filtered == Visible(messages[..i], userId)
    {
      var msg := messages[i];
      assert messages[..i + 1][..i] == messages[..i];
      if msg.visibleTo.None? || |msg.visibleTo.value| == 0 {
        filtered := filtered + [msg];
        continue;
      }
      var found := false;
      for j := 0 to |msg.visibleTo.value|
        invariant found == (userId in msg.visibleTo.value[..j])
      {
        if msg.visibleTo.value[j] == userId {
          found := true;
          assert userId in msg.visibleTo.value;
          break;
        }
      }
      if found {
        filtered := filtered + [msg];
      } else {
        assert msg.visibleTo.value[..|msg.visibleTo.value|] == msg.visibleTo.value;
      }
    }
    assert messages[..|messages|] == messages;
  }

  function FormatSystemUserRef(userId: string): string {
    var trimmed := TrimSpace(userId);
    if trimmed == "" then "" else "userId:" + trimmed
  }

  /** The system message announcing that this user joined. */
  predicate JoinMarker(m: Message, userId: string) {
    m.userId == SYSTEM_USER_ID && m.content == FormatSystemUserRef(userId) + " " + USER_JOINED
  }

  /** The announcement reads `userId:` with the trimmed ID, or nothing if it is blank, and the text. */
  lemma {:induction false} MarkerExactly(m: Message, userId: string)
    ensures var ref := if TrimSpace(userId) == "" then "" else "userId:" + TrimSpace(userId);
      JoinMarker(m, userId) <==> m.userId == "system" && m.content == ref + " <-- has entered the room"
  {
    hide TrimSpace;
    assert " " + USER_JOINED == " <-- has entered the room";
    var ref := if TrimSpace(userId) == "" then "" else "userId:" + TrimSpace(userId);
    assert ref + " " + USER_JOINED == ref + (" " + USER_JOINED);
  }

  /** Index of the first join marker, or the length. */
  function FirstMarker(visible: seq<Message>, userId: string): (i: nat)
    ensures i <= |visible| && (i < |visible| ==> JoinMarker(visible[i], userId))
    ensures forall j | 0 <= j < i :: !JoinMarker(visible[j], userId)
  {
    if visible == [] || JoinMarker(visible[0], userId) then 0 else 1 + FirstMarker(visible[1..], userId)
  }

  /** What `filterMessagesForJoinTime` gives: everything up to the join marker if there is one, else
      what is not older than the time of joining, and nothing if that time is unknown. */
  ghost function ForJoinTime(messages: seq<Message>, userId: string, joinedAt: int): seq<Message> {
    var visible := Visible(messages, userId);
    var j := FirstMarker(visible, userId);
    if j < |visible| then visible[..j + 1]
    else if joinedAt <= 0 then []
    else Filter(visible, (m: Message) => m.timestamp >= joinedAt)
  }

  method FilterMessagesForJoinTime(messages: seq<Message>, userId: string, joinedAt: int)
    returns (filtered: seq<Message>)
    ensures filtered == ForJoinTime(messages, userId, joinedAt)
  {
    hide JoinMarker, Visible;
    var visible := FilterMessagesByVisibility(messages, userId);
    var joinMessageIndex := -1;
    for index := 0 to |visible|
      invariant joinMessageIndex == -1 && forall i | 0 <= i < index :: !JoinMarker(visible[i], userId)
    {
      if JoinMarker(visible[index], userId) {
        joinMessageIndex := index;
        break;
      }
    }
    assert FirstMarker(visible, userId) == if joinMessageIndex >= 0 then joinMessageIndex else |visible|;
    if joinMessageIndex < 0 && joinedAt <= 0 {
      return [];
    }
    filtered := [];
    for index := 0 to |visible|
      invariant joinMessageIndex >= 0 ==>
          filtered == visible[..if index <= joinMessageIndex then index else joinMessageIndex + 1]
      invariant joinMessageIndex < 0 ==> filtered == Filter(visible[..index], (m: Message) => m.timestamp >= joinedAt)
    {
      var message := visible[index];
      assert visible[..index + 1][..index] == visible[..index];
      if joinMessageIndex >= 0 {
        if index <= joinMessageIndex {
          filtered := filtered + [message];
        }
        continue;
      }
      if message.timestamp >= joinedAt {
        filtered := filtered + [message];
      }
    }
    assert visible[..|visible|] == visible;
  }

  /** Without a join marker exactly the visible messages from the time of joining on are shown; with
      one, exactly those listed up to it. */
  lemma ForJoinTimeShows(messages: seq<Message>, userId: string, joinedAt: int, m: Message)
    ensures var r := ForJoinTime(messages, userId, joinedAt);
      && (m in r ==> m in messages && MaySee(m, userId))
      && ((forall x | x in messages && MaySee(x, userId) :: !JoinMarker(x, userId)) ==>
            (m in r <==> m in messages && MaySee(m, userId) && 0 < joinedAt <= m.timestamp))
      && ((r != [] && JoinMarker(r[|r| - 1], userId)) || forall x | x in r :: !JoinMarker(x, userId))
  {
    hide JoinMarker, MaySee;
    var visible := Visible(messages, userId);
    var j := FirstMarker(visible, userId);
    assert j < |visible| ==> visible[j] in visible;
    forall x | x in visible && j == |visible| ensures !JoinMarker(x, userId) {
      var i :| 0 <= i < |visible| && visible[i] == x;
    }
  }

  // ---- one page ----

  /** The cursor excludes a message that is not strictly before it; without an ID, everything at its
      timestamp. */
  predicate Excluded(m: Message, beforeTimestamp: int, beforeMessageId: string) {
    beforeTimestamp > 0 &&
    (m.timestamp > beforeTimestamp ||
     (m.timestamp == beforeTimestamp && (beforeMessageId == "" || !Less(m.id, beforeMessageId))))
  }

  function WindowLimit(limit: int): nat {
    if limit <= 0 || limit > 500 then DEFAULT_WINDOW_SIZE else limit
  }

  datatype Cursor = Cursor(timestamp: int, id: string)

  const START := Cursor(0, "")

  function Remaining(visible: seq<Message>, c: Cursor): seq<Message> {
    Filter(visible, (m: Message) => !Excluded(m, c.timestamp, c.id))
  }

  lemma NothingRemains(c: Cursor)
    ensures Remaining([], c) == []
  {
  }

  lemma RemainingStep(s: seq<Message>, i: nat, c: Cursor)
    requires i < |s|
    ensures Remaining(s[..i + 1], c) == Remaining(s[..i], c) + if Excluded(s[i], c.timestamp, c.id) then [] else [s[i]]
  {
    hide Excluded;
    assert s[..i + 1][..i] == s[..i];
  }

  /** The last `limit` messages before the cursor, and whether older ones remain. */
  function Page(visible: seq<Message>, limit: nat, c: Cursor): (r: (seq<Message>, bool)) {
    var left := Remaining(visible, c);
    if |left| <= limit then (left, false) else (left[|left| - limit..], true)
  }

  method PaginateMessagesBefore(messages: seq<Message>, userId: string, joinedAt: int, limit: int,
                                beforeTimestamp: int, beforeMessageId: string)
    returns (window: seq<Message>, hasMore: bool)
    ensures (window, hasMore)
         == Page(ForJoinTime(messages, userId, joinedAt), WindowLimit(limit), Cursor(beforeTimestamp, beforeMessageId))
  {
    hide Excluded, Remaining, ForJoinTime;
    var size: nat := if limit <= 0 || limit > 500 then DEFAULT_WINDOW_SIZE else limit;
    var shown := FilterMessagesForJoinTime(messages, userId, joinedAt);
    var filtered: seq<Message> := [];
    NothingRemains(Cursor(beforeTimestamp, beforeMessageId));
    assert shown[..0] == [];
    for i := 0 to |shown|
      invariant filtered == Remaining(shown[..i], Cursor(beforeTimestamp, beforeMessageId))
    {
      RemainingStep(shown, i, Cursor(beforeTimestamp, beforeMessageId));
      if Excluded(shown[i], beforeTimestamp, beforeMessageId) {
        continue;
      }
      filtered := filtered + [shown[i]];
    }
    assert shown[..|shown|] == shown;
    if |filtered| <= size {
      return filtered, false;
    }
    return filtered[|filtered| - size..], true;
  }

  /** THE PAGE. It shows members of its audience only, or everyone if there is no audience; what is
      strictly before the cursor in time and then ID; and at most the number asked for, exactly that many
      if more are left. For a user who has seen no join marker, a last page shows all of these from the time
      of joining on. */
  lemma {:induction false} PageExactly(messages: seq<Message>, userId: string, joinedAt: int, limit: int, c: Cursor,
        m: Message)
    ensures var (window, hasMore) := Page(ForJoinTime(messages, userId, joinedAt), WindowLimit(limit), c);
      var size := if 1 <= limit <= 500 then limit else 100;
      var shown := m in messages && (m.visibleTo == None || m.visibleTo == Some([]) || userId in m.visibleTo.value)
        && (c.timestamp <= 0 || m.timestamp < c.timestamp
            || (m.timestamp == c.timestamp && c.id != "" && Less(m.id, c.id)));
      && (m in window ==> shown)
      && |window| <= size && (hasMore ==> |window| == size)
      && (!hasMore && (forall x | x in messages && (x.visibleTo == None || x.visibleTo == Some([])
              || userId in x.visibleTo.value) :: !JoinMarker(x, userId)) ==>
            (m in window <==> shown && 0 < joinedAt <= m.timestamp))
  {
    ForJoinTimeShows(messages, userId, joinedAt, m);
    hide JoinMarker, ForJoinTime, Less;
  }

  // ---- a whole history ----

  predicate Positive(s: seq<Message>) {
    forall m | m in s :: m.timestamp > 0
  }

  function CursorOf(m: Message): Cursor {
    Cursor(m.timestamp, m.id)
  }

  lemma {:induction false} FilterShrinks(s: seq<Message>, p: Message -> bool, q: Message -> bool, x: Message)
    requires forall m | m in s && p(m) :: q(m)
    ensures |Filter(s, p)| <= |Filter(s, q)|
    ensures x in s && q(x) && !p(x) ==> |Filter(s, p)| < |Filter(s, q)|
  {
    if s != [] {
      assert s == s[..|s| - 1] + [s[|s| - 1]];
      FilterShrinks(s[..|s| - 1], p, q, x);
    }
  }

  /** A cursor taken from a message, with or without an ID, leaves exactly what is earlier. */
  lemma BeforeCursor(m: Message, x: Message, c: Cursor)
    requires x.timestamp > 0
    ensures Excluded(x, x.timestamp, x.id)
    ensures !Excluded(m, x.timestamp, x.id) <==> Earlier(m, x)
    ensures !Excluded(m, x.timestamp, x.id) && !Excluded(x, c.timestamp, c.id) ==> !Excluded(m, c.timestamp, c.id)
  {
    LessIrreflexive(x.id);
    if Less(m.id, x.id) && Less(x.id, c.id) { LessTransitive(m.id, x.id, c.id); }
  }

  /** The next page starts from strictly less. */
  lemma NextSmaller(f: seq<Message>, limit: nat, c: Cursor)
    requires Positive(f) && limit >= 1 && Page(f, limit, c).1
    ensures var w := Page(f, limit, c).0;
      w[0] in f && |Remaining(f, CursorOf(w[0]))| < |Remaining(f, c)|
  {
    hide Excluded;
    var x := Page(f, limit, c).0[0];
    assert x in Remaining(f, c);
    forall m | m in f ensures !Excluded(m, x.timestamp, x.id) ==> !Excluded(m, c.timestamp, c.id) {
      BeforeCursor(m, x, c);
    }
    BeforeCursor(x, x, c);
    FilterShrinks(f, (m: Message) => !Excluded(m, x.timestamp, x.id),
        (m: Message) => !Excluded(m, c.timestamp, c.id), x);
  }

  /** All pages: each asks for what precedes the first message of the one before, while there is more.
      It ends for every list with positive timestamps, in any order and with or without IDs. */
  ghost function Session(f: seq<Message>, limit: nat, c: Cursor): (r: seq<seq<Message>>)
    requires Positive(f) && limit >= 1
    ensures r != []
    decreases |Remaining(f, c)|
  {
    var page := Page(f, limit, c);
    if page.1 then
      NextSmaller(f, limit, c);
      [page.0] + Session(f, limit, CursorOf(page.0[0]))
    else [page.0]
  }

  /** The pages put together, oldest first. */
  function Backwards(pages: seq<seq<Message>>): seq<Message> {
    if pages == [] then [] else Backwards(pages[1..]) + pages[0]
  }

  // ---- oldest first: everything is read once ----

  lemma {:induction false} FilterAll(f: seq<Message>, p: Message -> bool)
    requires forall m | m in f :: p(m)
    ensures Filter(f, p) == f
  {
    if f != [] {
      var t, last := f[..|f| - 1], f[|f| - 1];
      assert f == t + [last];
      assert last in f;
      FilterAll(t, p);
    }
  }

  lemma {:induction false} FilterNone(f: seq<Message>, p: Message -> bool)
    requires forall m | m in f :: !p(m)
    ensures Filter(f, p) == []
  {
    if f != [] {
      var t, last := f[..|f| - 1], f[|f| - 1];
      assert f == t + [last];
      assert last in f;
      FilterNone(t, p);
    }
  }

  lemma {:induction false} FilterSplit(s: seq<Message>, t: seq<Message>, p: Message -> bool)
    ensures Filter(s + t, p) == Filter(s, p) + Filter(t, p)
  {
    if t == [] {
      assert s + t == s;
    } else {
      assert (s + t)[..|s + t| - 1] == s + t[..|t| - 1];
      FilterSplit(s, t[..|t| - 1], p);
    }
  }

  lemma {:induction false} FilterPrefix(f: seq<Message>, p: Message -> bool, k: nat)
    requires k <= |f| && (forall m | m in f[..k] :: p(m)) && (forall m | m in f[k..] :: !p(m))
    ensures Filter(f, p) == f[..k]
  {
    var kept, dropped := f[..k], f[k..];
    assert f == kept + dropped;
    FilterAll(kept, p);
    FilterNone(dropped, p);
    FilterSplit(kept, dropped, p);
    hide Filter;
    assert kept + [] == kept;
  }

  lemma {:induction false} FilterOldestFirst(s: seq<Message>, p: Message -> bool)
    requires OldestFirst(s)
    ensures OldestFirst(Filter(s, p))
  {
    hide MessageBefore;
    if s != [] {
      var t, x := s[..|s| - 1], s[|s| - 1];
      FilterOldestFirst(t, p);
      forall m | m in t ensures Earlier(m, x) {
        var i :| 0 <= i < |t| && t[i] == m;
        assert Earlier(s[i], s[|s| - 1]);
      }
    }
  }

  lemma {:induction false} FilterNewestFirst(s: seq<Message>, p: Message -> bool)
    requires NewestFirst(s)
    ensures NewestFirst(Filter(s, p))
  {
    hide Earlier;
    if s != [] {
      var t, x := s[..|s| - 1], s[|s| - 1];
      FilterNewestFirst(t, p);
      forall m | m in t ensures Earlier(x, m) {
        var i :| 0 <= i < |t| && t[i] == m;
        assert Earlier(s[|s| - 1], s[i]);
      }
    }
  }

  lemma EarlierIrreflexive(a: Message, b: Message)
    ensures !(Earlier(a, b) && Earlier(b, a))
  {
    LessIrreflexive(a.id);
    if Less(a.id, b.id) && Less(b.id, a.id) { LessTransitive(a.id, b.id, a.id); }
  }

  lemma StartLeavesAll(f: seq<Message>)
    ensures Remaining(f, START) == f
  {
    FilterAll(f, (m: Message) => !Excluded(m, START.timestamp, START.id));
  }

  lemma CursorLeavesPrefix(f: seq<Message>, k: nat)
    requires OldestFirst(f) && Positive(f) && k < |f|
    ensures Remaining(f, CursorOf(f[k])) == f[..k]
  {
    hide Excluded, Earlier;
    var x := f[k];
    forall m | m in f[..k] ensures !Excluded(m, x.timestamp, x.id) {
      var i :| 0 <= i < k && f[..k][i] == m;
      assert Earlier(f[i], f[k]);
      BeforeCursor(m, x, START);
    }
    forall m | m in f[k..] ensures Excluded(m, x.timestamp, x.id) {
      var i :| 0 <= i < |f| - k && f[k..][i] == m;
      assert i > 0 ==> Earlier(f[k], f[k + i]);
      EarlierIrreflexive(m, x);
      BeforeCursor(m, x, START);
    }
    FilterPrefix(f, (m: Message) => !Excluded(m, x.timestamp, x.id), k);
  }

  /** The page before the first `k` messages' end: the last of them, and more exactly if some are left. */
  lemma PageAt(f: seq<Message>, limit: nat, c: Cursor, k: nat)
    requires k <= |f| && Remaining(f, c) == f[..k]
    ensures Page(f, limit, c) == (f[if k > limit then k - limit else 0..k], k > limit)
  {
  }

  function PageCount(n: nat, limit: nat): nat
    requires limit >= 1
  {
    if n == 0 then 1 else (n + limit - 1) / limit
  }

  lemma Quotient(a: nat, b: nat, q: nat)
    requires b >= 1 && q * b <= a < q * b + b
    ensures a / b == q
  {
    var d := a / b - q;
    assert a == (a / b) * b + a % b;
    assert (a / b) * b == q * b + d * b;
    assert d >= 1 ==> d * b >= b;
    assert d <= -1 ==> d * b + b <= 0;
  }

  lemma PageCountStep(n: nat, limit: nat)
    requires limit >= 1
    ensures n <= limit ==> PageCount(n, limit) == 1
    ensures n > limit ==> PageCount(n, limit) == 1 + PageCount(n - limit, limit)
  {
    if n > limit {
      var q := (n - 1) / limit;
      assert n - 1 == q * limit + (n - 1) % limit;
      Quotient(n + limit - 1, limit, q + 1);
    } else if n > 0 {
      Quotient(n + limit - 1, limit, 1);
    }
  }

  lemma {:induction false} SessionFrom(f: seq<Message>, limit: nat, c: Cursor, k: nat)
    requires OldestFirst(f) && Positive(f) && limit >= 1
    requires k <= |f| && Remaining(f, c) == f[..k]
    ensures var pages := Session(f, limit, c);
      Backwards(pages) == f[..k] && |pages| == PageCount(k, limit)
    decreases k
  {
    hide Remaining, Page, OldestFirst, PageCount;
    PageAt(f, limit, c, k);
    PageCountStep(k, limit);
    var w := Page(f, limit, c).0;
    if k > limit {
      CursorLeavesPrefix(f, k - limit);
      SessionFrom(f, limit, CursorOf(w[0]), k - limit);
      assert Session(f, limit, c)[1..] == Session(f, limit, CursorOf(w[0]));
    } else {
      var pages := [w];
      assert Session(f, limit, c) == pages && pages[1..] == [];
    }
  }

  lemma ForJoinTimeKeeps(messages: seq<Message>, userId: string, joinedAt: int)
    ensures var r := ForJoinTime(messages, userId, joinedAt);
      (forall m | m in r :: m in messages) && (OldestFirst(messages) ==> OldestFirst(r))
  {
    hide JoinMarker, MaySee, MessageBefore;
    var visible := Visible(messages, userId);
    if OldestFirst(messages) {
      FilterOldestFirst(messages, (m: Message) => MaySee(m, userId));
      FilterOldestFirst(visible, (m: Message) => m.timestamp >= joinedAt);
    }
    assert forall m | m in visible :: m in messages;
  }

  /** On a list in the order the database returns it, paging from the start reads every message the
      join-time filter lets through exactly once, in the fewest possible pages. */
  lemma PagesCoverHistory(messages: seq<Message>, userId: string, joinedAt: int, limit: int)
    requires OldestFirst(messages) && Positive(messages)
    ensures var visible := ForJoinTime(messages, userId, joinedAt);
      Positive(visible) &&
      var pages := Session(visible, WindowLimit(limit), START);
      Backwards(pages) == visible && |pages| == PageCount(|visible|, WindowLimit(limit))
  {
    hide ForJoinTime, OldestFirst, Remaining;
    var visible := ForJoinTime(messages, userId, joinedAt);
    ForJoinTimeKeeps(messages, userId, joinedAt);
    StartLeavesAll(visible);
    assert visible[..|visible|] == visible;
    SessionFrom(visible, WindowLimit(limit), START, |visible|);
  }

  // ---- any list: what paging returns ----

  /** The pages of a client that takes each next cursor from any message of the last page: the first
      of a page kept as received, or the earliest once its window is sorted. */
  ghost predicate Requests(f: seq<Message>, limit: nat, cs: seq<Cursor>, pages: seq<seq<Message>>) {
    && |cs| == |pages| >= 1
    && (forall k | 0 <= k < |cs| :: Answers(f, limit, cs[k], pages[k], k + 1 < |cs|))
    && forall k | 1 <= k < |cs| :: TakenFrom(pages[k - 1], cs[k])
  }

  ghost predicate Answers(f: seq<Message>, limit: nat, c: Cursor, page: seq<Message>, more: bool) {
    Page(f, limit, c) == (page, more)
  }

  ghost predicate TakenFrom(page: seq<Message>, c: Cursor) {
    exists x :: x in page && c == CursorOf(x)
  }

  ghost predicate Shows(pages: seq<seq<Message>>, k: int, m: Message) {
    0 <= k < |pages| && m in pages[k]
  }

  ghost predicate NotShownBefore(pages: seq<seq<Message>>, k: nat, m: Message) {
    forall j | 0 <= j < k :: !Shows(pages, j, m)
  }

  ghost predicate Returned(pages: seq<seq<Message>>, m: Message) {
    exists k :: Shows(pages, k, m)
  }

  lemma {:induction false} OneMoreRequest(f: seq<Message>, limit: nat, c: Cursor, page: seq<Message>, cs: seq<Cursor>,
        pages: seq<seq<Message>>)
    requires Requests(f, limit, cs, pages) && Answers(f, limit, c, page, true) && TakenFrom(page, cs[0])
    ensures Requests(f, limit, [c] + cs, [page] + pages)
  {
    hide Answers, TakenFrom;
    var ds, all := [c] + cs, [page] + pages;
    assert forall k | 1 <= k < |ds| :: ds[k] == cs[k - 1] && all[k] == pages[k - 1];
  }

  lemma {:induction false} OnlyRequest(f: seq<Message>, limit: nat, c: Cursor, page: seq<Message>)
    requires Answers(f, limit, c, page, false)
    ensures Requests(f, limit, [c], [page])
  {
    hide Answers, TakenFrom;
  }

  /** A session is one of them. */
  lemma {:induction false} SessionRequests(f: seq<Message>, limit: nat, c: Cursor) returns (cs: seq<Cursor>)
    requires Positive(f) && limit >= 1
    ensures Requests(f, limit, cs, Session(f, limit, c)) && cs[0] == c
    decreases |Remaining(f, c)|
  {
    hide Page, Remaining, Requests;
    var page := Page(f, limit, c);
    if page.1 {
      NextSmaller(f, limit, c);
      PageNotEmpty(f, limit, c);
      var next := CursorOf(page.0[0]);
      var rest := SessionRequests(f, limit, next);
      cs := [c] + rest;
      assert TakenFrom(page.0, next);
      OneMoreRequest(f, limit, c, page.0, rest, Session(f, limit, next));
    } else {
      cs := [c];
      OnlyRequest(f, limit, c, page.0);
    }
  }

  lemma {:induction false} PageNotEmpty(f: seq<Message>, limit: nat, c: Cursor)
    requires limit >= 1 && Page(f, limit, c).1
    ensures Page(f, limit, c).0 != []
  {
  }

  /** Still to come: in the list and not left out by the cursor. */
  predicate Left(f: seq<Message>, c: Cursor, m: Message) {
    m in f && !Excluded(m, c.timestamp, c.id)
  }

  /** A page shows nothing but what is left, and a last page all of it. */
  lemma {:induction false} PageLeft(f: seq<Message>, limit: nat, c: Cursor, page: seq<Message>, more: bool, m: Message)
    requires Answers(f, limit, c, page, more)
    ensures m in page ==> Left(f, c, m)
    ensures !more && Left(f, c, m) ==> m in page
  {
    hide Excluded;
    assert m in Remaining(f, c) <==> Left(f, c, m);
  }

  /** What one cursor leaves out, a cursor from its page leaves out. */
  lemma {:induction false} NextExcludes(f: seq<Message>, limit: nat, c: Cursor, page: seq<Message>, more: bool,
        next: Cursor, m: Message)
    requires Positive(f) && Answers(f, limit, c, page, more) && TakenFrom(page, next)
    requires Excluded(m, c.timestamp, c.id)
    ensures Excluded(m, next.timestamp, next.id)
  {
    hide Excluded;
    var x :| x in page && next == CursorOf(x);
    PageLeft(f, limit, c, page, more, x);
    BeforeCursor(m, x, c);
  }

  lemma {:induction false} StaysExcluded(f: seq<Message>, limit: nat, cs: seq<Cursor>, pages: seq<seq<Message>>, j: nat,
        k: nat, m: Message)
    requires Positive(f) && Requests(f, limit, cs, pages) && j <= k < |cs| && Excluded(m, cs[j].timestamp, cs[j].id)
    ensures Excluded(m, cs[k].timestamp, cs[k].id)
  {
    hide Excluded, Answers, TakenFrom, Positive;
    if j < k {
      StaysExcluded(f, limit, cs, pages, j, k - 1, m);
      NextExcludes(f, limit, cs[k - 1], pages[k - 1], true, cs[k], m);
    }
  }

  /** Request `k` loses a message: it was still to come, neither this page nor an earlier one shows it, and
      the next cursor leaves it out. */
  ghost predicate Lost(f: seq<Message>, cs: seq<Cursor>, pages: seq<seq<Message>>, m: Message, k: nat) {
    && k + 1 < |cs| && Left(f, cs[k], m) && NotShownBefore(pages, k + 1, m)
    && Excluded(m, cs[k + 1].timestamp, cs[k + 1].id)
  }

  ghost predicate NeverLost(f: seq<Message>, cs: seq<Cursor>, pages: seq<seq<Message>>, m: Message) {
    forall k :: !Lost(f, cs, pages, m, k)
  }

  /** A message that is still to come is shown now, or is still to come. */
  lemma {:induction false} NowOrLater(f: seq<Message>, limit: nat, cs: seq<Cursor>, pages: seq<seq<Message>>,
        m: Message, k: nat)
    requires Requests(f, limit, cs, pages) && k < |cs| && Left(f, cs[k], m) && NotShownBefore(pages, k, m)
    requires !Lost(f, cs, pages, m, k) && !Shows(pages, k, m)
    ensures k + 1 < |cs| && Left(f, cs[k + 1], m) && NotShownBefore(pages, k + 1, m)
  {
    assert Answers(f, limit, cs[k], pages[k], k + 1 < |cs|);
    hide Excluded, Answers, TakenFrom;
    PageLeft(f, limit, cs[k], pages[k], k + 1 < |cs|, m);
  }

  lemma {:induction false} ComesLater(f: seq<Message>, limit: nat, cs: seq<Cursor>, pages: seq<seq<Message>>,
        m: Message, k: nat)
    requires Requests(f, limit, cs, pages) && k < |cs| && Left(f, cs[k], m) && NotShownBefore(pages, k, m)
    requires NeverLost(f, cs, pages, m)
    ensures Returned(pages, m)
    decreases |cs| - k
  {
    hide Requests, Left, Lost, Shows, NotShownBefore;
    if !Shows(pages, k, m) {
      NowOrLater(f, limit, cs, pages, m, k);
      ComesLater(f, limit, cs, pages, m, k + 1);
    }
  }

  /** What a page shows was not left out by its cursor, nor by an earlier one. */
  lemma {:induction false} NotAfter(f: seq<Message>, limit: nat, cs: seq<Cursor>, pages: seq<seq<Message>>, m: Message,
        j: nat, k: nat)
    requires Positive(f) && Requests(f, limit, cs, pages) && j <= k && Shows(pages, k, m)
    ensures m in f && !Excluded(m, cs[j].timestamp, cs[j].id)
  {
    hide Excluded, Answers, TakenFrom, Positive;
    PageLeft(f, limit, cs[k], pages[k], k + 1 < |cs|, m);
    if Excluded(m, cs[j].timestamp, cs[j].id) {
      StaysExcluded(f, limit, cs, pages, j, k, m);
    }
  }

  lemma {:induction false} LostForGood(f: seq<Message>, limit: nat, cs: seq<Cursor>, pages: seq<seq<Message>>,
        m: Message, k: nat)
    requires Positive(f) && Requests(f, limit, cs, pages) && Lost(f, cs, pages, m, k)
    ensures !Returned(pages, m)
  {
    ShownAt(pages, m);
    hide Excluded, Requests, Shows, Left, Positive;
    if i: nat :| Shows(pages, i, m) {
      NotAfter(f, limit, cs, pages, m, if i <= k then i else k + 1, i);
    }
  }

  lemma {:induction false} ShownAt(pages: seq<seq<Message>>, m: Message)
    ensures forall i :: Shows(pages, i, m) ==> 0 <= i < |pages|
  {
  }

  /** For every list, in any order and with or without IDs: paging returns a message if and only if no
      request loses it. */
  lemma {:induction false} ReturnedExactly(f: seq<Message>, limit: nat, cs: seq<Cursor>, pages: seq<seq<Message>>,
        m: Message)
    requires Positive(f) && Requests(f, limit, cs, pages) && cs[0] == START && m in f
    ensures Returned(pages, m) <==> NeverLost(f, cs, pages, m)
  {
    assert Left(f, START, m) && |cs| >= 1 && NotShownBefore(pages, 0, m);
    hide Excluded, Requests, Returned, Lost, Left, NotShownBefore;
    if NeverLost(f, cs, pages, m) {
      ComesLater(f, limit, cs, pages, m, 0);
    } else {
      var k: nat :| Lost(f, cs, pages, m, k);
      LostForGood(f, limit, cs, pages, m, k);
    }
  }

  // ---- newest in front: what live sends leave behind ----

  /** A restarted server's list: `n` live messages in order of arrival, the newest first, in front of
      loaded ones, oldest first. Messages of one second have IDs in any order, or none. */
  ghost predicate Arrived(f: seq<Message>, n: nat) {
    && n <= |f| && OldestFirst(f[n..])
    && forall i, j | 0 <= i < j < |f| && i < n :: f[j].timestamp <= f[i].timestamp
  }

  /** The first cursor is not later than any live message that the first page leaves out. */
  ghost predicate LeavesBehind(f: seq<Message>, n: nat, limit: nat, cs: seq<Cursor>) {
    |cs| > 1 ==> forall i | 0 <= i < n && i < |f| - limit :: Excluded(f[i], cs[1].timestamp, cs[1].id)
  }

  /** Where the messages that paging returns begin: all loaded ones, and as many live ones as the
      first page has room for. */
  function Reach(f: seq<Message>, n: nat, limit: nat): (k: nat)
    requires n <= |f|
    ensures k <= |f|
  {
    if |f| <= limit then 0 else if |f| - limit <= n then |f| - limit else n
  }

  /** What a filter keeps at the end comes later in the list than what it keeps before. */
  lemma {:induction false} SuffixLater(front: seq<Message>, back: seq<Message>, p: Message -> bool, q: nat, y: Message)
    requires front != [] && p(front[|front| - 1])
    requires var kept := Filter(front + back, p);
      q <= |kept| && front[|front| - 1] !in kept[q..] && y in kept[q..]
    ensures y in back
  {
    FilterSplit(front, back, p);
    AfterDropped(Filter(front, p), Filter(back, p), q, front[|front| - 1], y);
  }

  lemma {:induction false} AfterDropped(kept: seq<Message>, later: seq<Message>, q: nat, x: Message, y: Message)
    requires kept != [] && kept[|kept| - 1] == x && q <= |kept + later|
    requires x !in (kept + later)[q..] && y in (kept + later)[q..]
    ensures y in later
  {
    var all := kept + later;
    assert all[|kept| - 1] == x;
    Tail(all, q);
    assert all[q..] == later[q - |kept|..];
  }

  lemma {:induction false} LaterLoaded(f: seq<Message>, n: nat, i: nat, y: Message)
    requires n <= i < |f| && OldestFirst(f[n..]) && y in f[i + 1..]
    ensures Earlier(f[i], y)
  {
    hide Earlier;
    var k :| 0 <= k < |f| - i - 1 && f[i + 1..][k] == y;
    assert f[n..][i - n] == f[i] && f[n..][i + 1 + k - n] == y;
  }

  /** A loaded message that a page leaves out is earlier than any cursor from the page. */
  lemma {:induction false} LoadedStillLeft(f: seq<Message>, n: nat, limit: nat, c: Cursor, page: seq<Message>,
        next: Cursor, i: nat)
    requires Arrived(f, n) && Positive(f) && limit >= 1 && Answers(f, limit, c, page, true) && TakenFrom(page, next)
    requires n <= i < |f| && Left(f, c, f[i]) && f[i] !in page
    ensures !Excluded(f[i], next.timestamp, next.id)
  {
    var y :| y in page && next == CursorOf(y);
    PageLeft(f, limit, c, page, true, y);
    hide Answers, Excluded, Earlier;
    PageLater(f, limit, c, page, i, y);
    LaterLoaded(f, n, i, y);
    BeforeCursor(f[i], y, c);
  }

  lemma {:induction false} PageLater(f: seq<Message>, limit: nat, c: Cursor, page: seq<Message>, i: nat, y: Message)
    requires Answers(f, limit, c, page, true) && i < |f| && Left(f, c, f[i]) && f[i] !in page && y in page
    ensures y in f[i + 1..]
  {
    hide Excluded;
    assert f == f[..i + 1] + f[i + 1..];
    SuffixLater(f[..i + 1], f[i + 1..], (m: Message) => !Excluded(m, c.timestamp, c.id), |Remaining(f, c)| - limit, y);
  }

  /** Loaded messages are never lost. */
  lemma {:induction false} LoadedNotLost(f: seq<Message>, n: nat, limit: nat, cs: seq<Cursor>, pages: seq<seq<Message>>,
        i: nat, k: nat)
    requires Arrived(f, n) && Positive(f) && limit >= 1 && Requests(f, limit, cs, pages) && n <= i < |f|
    ensures !Lost(f, cs, pages, f[i], k)
  {
    hide Excluded, Arrived, Answers, TakenFrom, Positive, Left;
    if Lost(f, cs, pages, f[i], k) {
      assert Answers(f, limit, cs[k], pages[k], true) && TakenFrom(pages[k], cs[k + 1]) && !Shows(pages, k, f[i]);
      LoadedStillLeft(f, n, limit, cs[k], pages[k], cs[k + 1], i);
    }
  }

  lemma {:induction false} FirstPage(f: seq<Message>, limit: nat, cs: seq<Cursor>, pages: seq<seq<Message>>)
    requires Requests(f, limit, cs, pages) && cs[0] == START
    ensures |f| <= limit ==> |pages| == 1 && pages[0] == f
    ensures |f| > limit ==> |pages| > 1 && pages[0] == f[|f| - limit..]
  {
    hide Remaining;
    StartLeavesAll(f);
  }

  /** A first page lies within reach. */
  lemma {:induction false} FirstWithin(f: seq<Message>, n: nat, limit: nat, m: Message)
    requires n <= |f| && m in if |f| <= limit then f else f[|f| - limit..]
    ensures m in f[Reach(f, n, limit)..]
  {
    var r := Reach(f, n, limit);
    assert |f| > limit ==> f[r..] == f[r..|f| - limit] + f[|f| - limit..];
    assert f[0..] == f;
  }

  /** And so does every message that the first cursor leaves. */
  lemma {:induction false} LeftWithin(f: seq<Message>, n: nat, limit: nat, cs: seq<Cursor>, m: Message)
    requires n <= |f| && |cs| > 1 && LeavesBehind(f, n, limit, cs) && Left(f, cs[1], m)
    ensures m in f[Reach(f, n, limit)..]
  {
    hide Excluded;
    Tail(f, Reach(f, n, limit));
    var i :| 0 <= i < |f| && f[i] == m;
  }

  lemma {:induction false} BehindReach(f: seq<Message>, n: nat, limit: nat, cs: seq<Cursor>, pages: seq<seq<Message>>,
        m: Message)
    requires n <= |f| && Positive(f) && Requests(f, limit, cs, pages) && cs[0] == START && LeavesBehind(f, n, limit, cs)
    requires Returned(pages, m)
    ensures m in f[Reach(f, n, limit)..]
  {
    FirstPage(f, limit, cs, pages);
    SameLengths(f, limit, cs, pages);
    ShownAt(pages, m);
    var k: nat :| Shows(pages, k, m);
    assert k == 0 ==> m in pages[0];
    hide Excluded, Requests, Returned, Shows, Positive, LeavesBehind, Reach;
    if k == 0 {
      FirstWithin(f, n, limit, m);
    } else {
      NotAfter(f, limit, cs, pages, m, 1, k);
      assert Left(f, cs[1], m);
      LeftWithin(f, n, limit, cs, m);
    }
  }

  /** Wherever in each page the client takes its next cursor: if the first cursor leaves no live message
      behind that it should still return, paging returns exactly the messages from `Reach` on. */
  lemma {:induction false} ArrivedReturned(f: seq<Message>, n: nat, limit: nat, cs: seq<Cursor>,
        pages: seq<seq<Message>>, m: Message)
    requires Arrived(f, n) && Positive(f) && limit >= 1 && Requests(f, limit, cs, pages) && cs[0] == START
    requires LeavesBehind(f, n, limit, cs)
    ensures Returned(pages, m) <==> m in f[Reach(f, n, limit)..]
  {
    var r := Reach(f, n, limit);
    hide Requests, Returned, Positive, Arrived, LeavesBehind, Reach;
    if Returned(pages, m) {
      BehindReach(f, n, limit, cs, pages, m);
    }
    if m in f[r..] {
      var i :| 0 <= i < |f| - r && f[r..][i] == m;
      FromReach(f, n, limit, cs, pages, r + i);
    }
  }

  /** Every loaded message is returned. */
  lemma {:induction false} LoadedReturned(f: seq<Message>, n: nat, limit: nat, cs: seq<Cursor>,
        pages: seq<seq<Message>>, i: nat)
    requires Arrived(f, n) && Positive(f) && limit >= 1 && Requests(f, limit, cs, pages) && cs[0] == START
    requires n <= i < |f|
    ensures Returned(pages, f[i])
  {
    assert f[i] in f;
    hide Requests, Arrived, Lost, Positive, Returned;
    forall k: nat ensures !Lost(f, cs, pages, f[i], k) {
      LoadedNotLost(f, n, limit, cs, pages, i, k);
    }
    ReturnedExactly(f, limit, cs, pages, f[i]);
  }

  lemma {:induction false} FromReach(f: seq<Message>, n: nat, limit: nat, cs: seq<Cursor>, pages: seq<seq<Message>>,
        i: nat)
    requires Arrived(f, n) && Positive(f) && limit >= 1 && Requests(f, limit, cs, pages) && cs[0] == START
    requires Reach(f, n, limit) <= i < |f|
    ensures Returned(pages, f[i])
  {
    FirstPage(f, limit, cs, pages);
    assert n <= |f|;
    hide Requests, Arrived, Positive, Returned;
    if f[i] in pages[0] {
      ShownReturned(pages, f[i]);
    } else {
      ArrivedLoaded(f, n, limit, i);
      LoadedReturned(f, n, limit, cs, pages, i);
    }
  }

  lemma SameLengths(f: seq<Message>, limit: nat, cs: seq<Cursor>, pages: seq<seq<Message>>)
    requires Requests(f, limit, cs, pages)
    ensures |cs| == |pages|
  {
  }

  lemma ShownReturned(pages: seq<seq<Message>>, m: Message)
    requires |pages| >= 1 && m in pages[0]
    ensures Returned(pages, m)
  {
    assert Shows(pages, 0, m);
  }

  lemma {:induction false} ArrivedLoaded(f: seq<Message>, n: nat, limit: nat, i: nat)
    requires n <= |f| && Reach(f, n, limit) <= i < |f|
    requires f[i] !in if |f| <= limit then f else f[|f| - limit..]
    ensures n <= i
  {
    Tail(f, if |f| > limit then |f| - limit else 0);
  }

  lemma {:induction false} Tail(f: seq<Message>, k: nat)
    requires k <= |f|
    ensures forall i | k <= i < |f| :: f[i] in f[k..]
  {
    assert forall i | k <= i < |f| :: f[i] == f[k..][i - k];
  }

  /** Then paging reaches every message if and only if there are no live ones or one page holds them
      all; otherwise it never returns the newest. */
  lemma {:induction false} ArrivedCovered(f: seq<Message>, n: nat, limit: nat, cs: seq<Cursor>,
        pages: seq<seq<Message>>)
    requires Arrived(f, n) && Positive(f) && Distinct(f) && limit >= 1
    requires Requests(f, limit, cs, pages) && cs[0] == START && LeavesBehind(f, n, limit, cs)
    ensures (forall m | m in f :: Returned(pages, m)) <==> n == 0 || |f| <= limit
    ensures n > 0 && |f| > limit ==> !Returned(pages, f[0])
  {
    assert n <= |f|;
    hide Requests, Returned, LeavesBehind, Arrived;
    forall m ensures Returned(pages, m) <==> m in f[Reach(f, n, limit)..] {
      ArrivedReturned(f, n, limit, cs, pages, m);
    }
    var r := Reach(f, n, limit);
    if n > 0 && |f| > limit {
      assert f[0] in f;
      assert forall i | 0 <= i < |f| - r :: f[r..][i] == f[r + i];
    } else {
      assert f[0..] == f;
    }
  }

  /** That holds if no live message shares its second with one listed after it, */
  lemma {:induction false} SecondsApart(f: seq<Message>, n: nat, limit: nat, cs: seq<Cursor>, pages: seq<seq<Message>>)
    requires n <= |f| && Positive(f) && limit >= 1 && Requests(f, limit, cs, pages) && cs[0] == START
    requires forall i, j | 0 <= i < j < |f| && i < n :: f[j].timestamp < f[i].timestamp
    ensures LeavesBehind(f, n, limit, cs)
  {
    FirstCursor(f, limit, cs, pages);
  }

  lemma {:induction false} FirstCursor(f: seq<Message>, limit: nat, cs: seq<Cursor>, pages: seq<seq<Message>>)
    requires Requests(f, limit, cs, pages) && cs[0] == START
    ensures |cs| > 1 ==> |f| > limit && exists j :: |f| - limit <= j < |f| && cs[1] == CursorOf(f[j])
  {
    hide Excluded, Remaining;
    StartLeavesAll(f);
    if |cs| > 1 {
      var x :| x in pages[0] && cs[1] == CursorOf(x);
      var i :| 0 <= i < |pages[0]| && pages[0][i] == x;
      assert pages[0] == f[|f| - limit..];
      assert f[|f| - limit + i] == x;
    }
  }

  /** or if the whole list is newest first by time and ID. */
  lemma {:induction false} NewestFirstBehind(f: seq<Message>, limit: nat, cs: seq<Cursor>, pages: seq<seq<Message>>)
    requires NewestFirst(f) && Positive(f) && limit >= 1 && Requests(f, limit, cs, pages) && cs[0] == START
    ensures LeavesBehind(f, |f|, limit, cs)
  {
    FirstCursor(f, limit, cs, pages);
    hide Excluded, Earlier;
    if |cs| > 1 {
      var j :| |f| - limit <= j < |f| && cs[1] == CursorOf(f[j]);
      forall i | 0 <= i < |f| - limit ensures Excluded(f[i], cs[1].timestamp, cs[1].id) {
        BeforeCursor(f[i], f[j], START);
        EarlierIrreflexive(f[i], f[j]);
      }
    }
  }

  /** Not without it: of two live messages of one second the newer is returned if its ID is smaller. */
  lemma {:induction false} SameSecondReturned(a: Message, b: Message)
    requires a.timestamp == b.timestamp > 0 && Less(a.id, b.id)
    ensures Arrived([a, b], 2)
    ensures Requests([a, b], 1, [START, CursorOf(b)], [[b], [a]]) && Returned([[b], [a]], a)
  {
    var f, pages := [a, b], [[b], [a]];
    StartLeavesAll(f);
    LessIrreflexive(b.id);
    assert Page(f, 1, START) == ([b], true);
    assert f[..1] == [a] && [a][..0] == [] && [b][..0] == [];
    NothingRemains(CursorOf(b));
    assert !Excluded(a, b.timestamp, b.id) && Excluded(b, b.timestamp, b.id);
    assert Remaining([a], CursorOf(b)) == [a];
    assert Remaining(f, CursorOf(b)) == [a];
    assert Page(f, 1, CursorOf(b)) == ([a], false);
    assert pages[1] == [a] && b in pages[0] && Shows(pages, 1, a);
  }

  // ---- the shape is kept ----

  /** A filter keeps the order of any two messages it keeps. */
  lemma {:induction false} FilterPair(f: seq<Message>, p: Message -> bool, i: nat, j: nat) returns (u: nat, v: nat)
    requires i < j < |Filter(f, p)|
    ensures u < v < |f| && f[u] == Filter(f, p)[i] && f[v] == Filter(f, p)[j]
  {
    var n := |f| - 1;
    var s := Filter(f[..n], p);
    if j < |s| {
      u, v := FilterPair(f[..n], p, i, j);
    } else {
      assert s[i] in s;
      u :| 0 <= u < n && f[..n][u] == s[i];
      v := n;
    }
  }

  lemma {:induction false} LiveBeforeLoaded(f: seq<Message>, n: nat, live: Message, loaded: Message)
    requires Arrived(f, n) && live in f[..n] && loaded in f[n..]
    ensures loaded.timestamp <= live.timestamp
  {
    hide OldestFirst;
    var u :| 0 <= u < n && f[..n][u] == live;
    var v :| 0 <= v < |f| - n && f[n..][v] == loaded;
    assert f[u] == live && f[n + v] == loaded;
  }

  lemma {:induction false} FilterArrived(f: seq<Message>, n: nat, p: Message -> bool) returns (k: nat)
    requires Arrived(f, n)
    ensures Arrived(Filter(f, p), k)
  {
    var live, loaded := Filter(f[..n], p), Filter(f[n..], p);
    assert f == f[..n] + f[n..];
    FilterSplit(f[..n], f[n..], p);
    FilterOldestFirst(f[n..], p);
    hide OldestFirst, Filter;
    k := |live|;
    var r := live + loaded;
    assert r[k..] == loaded;
    forall i, j | 0 <= i < j < k ensures live[j].timestamp <= live[i].timestamp {
      var u, v := FilterPair(f[..n], p, i, j);
      assert f[u] == live[i] && f[v] == live[j];
    }
    hide Arrived;
    forall i, j | 0 <= i < k && 0 <= j < |loaded| ensures loaded[j].timestamp <= live[i].timestamp {
      LiveBeforeLoaded(f, n, live[i], loaded[j]);
    }
    TwoParts(live, loaded);
  }

  lemma {:induction false} TwoParts(live: seq<Message>, loaded: seq<Message>)
    requires OldestFirst(loaded) && forall i, j | 0 <= i < j < |live| :: live[j].timestamp <= live[i].timestamp
    requires forall i, j | 0 <= i < |live| && 0 <= j < |loaded| :: loaded[j].timestamp <= live[i].timestamp
    ensures Arrived(live + loaded, |live|)
  {
    hide OldestFirst;
    assert (live + loaded)[|live|..] == loaded;
  }

  lemma {:induction false} PrefixArrived(f: seq<Message>, n: nat, k: nat)
    requires Arrived(f, n) && k <= |f|
    ensures Arrived(f[..k], if n <= k then n else k)
  {
    hide Earlier;
    var r := f[..k];
    if n <= k {
      assert forall i | 0 <= i < k - n :: r[n..][i] == f[n..][i];
    }
  }

  /** What the join-time filter lets through keeps this shape. */
  lemma {:induction false} ForJoinTimeArrived(messages: seq<Message>, n: nat, userId: string, joinedAt: int)
    returns (k: nat)
    requires Arrived(messages, n)
    ensures Arrived(ForJoinTime(messages, userId, joinedAt), k)
  {
    var visible := Visible(messages, userId);
    hide Arrived, JoinMarker, MaySee;
    var shown := FilterArrived(messages, n, (m: Message) => MaySee(m, userId));
    var j := FirstMarker(visible, userId);
    if j < |visible| {
      PrefixArrived(visible, shown, j + 1);
      k := if shown <= j + 1 then shown else j + 1;
    } else if joinedAt <= 0 {
      NothingArrived();
      k := 0;
    } else {
      k := FilterArrived(visible, shown, (m: Message) => m.timestamp >= joinedAt);
    }
  }

  lemma NothingArrived()
    ensures Arrived([], 0)
  {
  }

  // ---- the join marker ----

  lemma {:induction false} UpToMarker(messages: seq<Message>, userId: string, joinedAt: int) returns (j: nat)
    requires exists x :: x in messages && MaySee(x, userId) && JoinMarker(x, userId)
    ensures var visible := Visible(messages, userId);
      && j < |visible| && JoinMarker(visible[j], userId)
      && ForJoinTime(messages, userId, joinedAt) == visible[..j + 1]
  {
    hide JoinMarker, MaySee;
    var visible := Visible(messages, userId);
    var x :| x in messages && MaySee(x, userId) && JoinMarker(x, userId);
    assert x in visible;
    j := FirstMarker(visible, userId);
  }

  lemma VisibleIs(messages: seq<Message>, userId: string, m: Message)
    ensures m in Visible(messages, userId) <==> m in messages && MaySee(m, userId)
  {
  }

  lemma {:induction false} FromMarkerOn(messages: seq<Message>, userId: string, j: nat, m: Message)
    requires NewestFirst(messages) && j < |Visible(messages, userId)|
    ensures var visible := Visible(messages, userId);
      m in visible[..j + 1] <==> m in messages && MaySee(m, userId) && !Earlier(m, visible[j])
  {
    VisibleIs(messages, userId, m);
    hide Earlier;
    FilterNewestFirst(messages, (x: Message) => MaySee(x, userId));
    hide MaySee, NewestFirst, Filter;
    UpToNewest(Visible(messages, userId), j, m);
  }

  lemma {:induction false} UpToTheMarker(messages: seq<Message>, userId: string, j: nat, m: Message)
    requires OldestFirst(messages) && j < |Visible(messages, userId)|
    ensures var visible := Visible(messages, userId);
      m in visible[..j + 1] <==> m in messages && MaySee(m, userId) && !Earlier(visible[j], m)
  {
    VisibleIs(messages, userId, m);
    hide Earlier;
    FilterOldestFirst(messages, (x: Message) => MaySee(x, userId));
    hide MaySee, OldestFirst, Filter;
    UpToOldest(Visible(messages, userId), j, m);
  }

  /** With a join marker: on a newest-first list exactly the visible messages that are not earlier
      than the marker are shown; on the oldest-first list of a restarted server exactly those that are
      not later. */
  lemma {:induction false} MarkerBounds(messages: seq<Message>, userId: string, joinedAt: int, m: Message)
    requires exists x :: x in messages && MaySee(x, userId) && JoinMarker(x, userId)
    ensures var r := ForJoinTime(messages, userId, joinedAt);
      && r != [] && JoinMarker(r[|r| - 1], userId)
      && (NewestFirst(messages) ==> (m in r <==> m in messages && MaySee(m, userId) && !Earlier(m, r[|r| - 1])))
      && (OldestFirst(messages) ==> (m in r <==> m in messages && MaySee(m, userId) && !Earlier(r[|r| - 1], m)))
  {
    hide Earlier, JoinMarker, ForJoinTime, MaySee, NewestFirst, OldestFirst, Visible;
    var j := UpToMarker(messages, userId, joinedAt);
    if NewestFirst(messages) { FromMarkerOn(messages, userId, j, m); }
    if OldestFirst(messages) { UpToTheMarker(messages, userId, j, m); }
  }

  predicate TimesFall(s: seq<Message>) {
    forall u, v | 0 <= u < v < |s| :: s[v].timestamp <= s[u].timestamp
  }

  /** On live messages in order of arrival the second decides: of what may be seen, all that is newer
      than the marker is shown and nothing that is older. */
  lemma {:induction false} MarkerBoundsLive(messages: seq<Message>, userId: string, joinedAt: int, m: Message)
    requires Arrived(messages, |messages|)
    requires exists x :: x in messages && MaySee(x, userId) && JoinMarker(x, userId)
    ensures var r := ForJoinTime(messages, userId, joinedAt);
      && r != [] && JoinMarker(r[|r| - 1], userId)
      && (m in r ==> m in messages && MaySee(m, userId) && m.timestamp >= r[|r| - 1].timestamp)
      && (m in messages && MaySee(m, userId) && m.timestamp > r[|r| - 1].timestamp ==> m in r)
  {
    hide JoinMarker, ForJoinTime, MaySee, Visible, Arrived, TimesFall;
    var j := UpToMarker(messages, userId, joinedAt);
    var visible := Visible(messages, userId);
    VisibleIs(messages, userId, m);
    VisibleArrived(messages, userId);
    UpToTime(visible, j, m);
  }

  lemma {:induction false} VisibleArrived(messages: seq<Message>, userId: string)
    requires Arrived(messages, |messages|)
    ensures TimesFall(Visible(messages, userId))
  {
    var visible := Visible(messages, userId);
    hide MaySee, OldestFirst;
    forall u, v | 0 <= u < v < |visible| ensures visible[v].timestamp <= visible[u].timestamp {
      var x, y := FilterPair(messages, (x: Message) => MaySee(x, userId), u, v);
    }
  }

  lemma {:induction false} UpToTime(s: seq<Message>, j: nat, m: Message)
    requires j < |s| && TimesFall(s)
    ensures m in s[..j + 1] ==> m.timestamp >= s[j].timestamp
    ensures m in s && m.timestamp > s[j].timestamp ==> m in s[..j + 1]
  {
    if m in s && m.timestamp > s[j].timestamp {
      var i :| 0 <= i < |s| && s[i] == m;
      assert s[..j + 1][i] == m;
    }
  }

  lemma {:induction false} UpToNewest(s: seq<Message>, j: nat, m: Message)
    requires NewestFirst(s) && j < |s|
    ensures m in s[..j + 1] <==> m in s && !Earlier(m, s[j])
  {
    hide Earlier;
    forall i | 0 <= i < |s| ensures Earlier(s[i], s[j]) <==> j < i {
      EarlierIrreflexive(s[i], s[j]);
    }
  }

  lemma {:induction false} UpToOldest(s: seq<Message>, j: nat, m: Message)
    requires OldestFirst(s) && j < |s|
    ensures m in s[..j + 1] <==> m in s && !Earlier(s[j], m)
  {
    hide Earlier;
    forall i | 0 <= i < |s| ensures Earlier(s[j], s[i]) <==> j < i {
      EarlierIrreflexive(s[i], s[j]);
    }
  }
}
