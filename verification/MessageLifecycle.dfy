/** What happens to a message in memory (server-go/internal/server: socket_handlers_messages.go,
    socket_handlers_access.go): send, vote, edit, delete and access grants. Each method is the part of
    its handler that runs under `cs.mu`. */
module MessageLifecycle {
  import opened ChatTypes
  import opened StoreSchema
  import opened Text
  import ServerRooms

  // ---- finding the target ----

  predicate FirstWith(ms: seq<Message>, p: Message -> bool, i: int) {
    0 <= i < |ms| && p(ms[i]) && forall j | 0 <= j < i :: !p(ms[j])
  }

  /** By ID if one is given and known, else by timestamp; -1 if neither is found. */
  ghost predicate Target(ms: seq<Message>, id: string, timestamp: int, i: int) {
    if id != "" && exists m :: m in ms && m.id == id then FirstWith(ms, (m: Message) => m.id == id, i)
    else if exists m :: m in ms && m.timestamp == timestamp
        then FirstWith(ms, (m: Message) => m.timestamp == timestamp, i)
    else i == -1
  }

  function FirstIndex(ms: seq<Message>, p: Message -> bool): (i: nat)
    ensures i <= |ms| && (i < |ms| ==> p(ms[i])) && forall j | 0 <= j < i :: !p(ms[j])
  {
    if ms == [] || p(ms[0]) then 0 else 1 + FirstIndex(ms[1..], p)
  }

  function TargetOf(ms: seq<Message>, id: string, timestamp: int): (i: int)
    ensures -1 <= i < |ms|
  {
    var byId := FirstIndex(ms, (m: Message) => m.id == id);
    var byTime := FirstIndex(ms, (m: Message) => m.timestamp == timestamp);
    if id != "" && byId < |ms| then byId else if byTime < |ms| then byTime else -1
  }

  lemma TargetOfIsTarget(ms: seq<Message>, id: string, timestamp: int, i: int)
    ensures Target(ms, id, timestamp, i) <==> i == TargetOf(ms, id, timestamp)
  {
    var byId := FirstIndex(ms, (m: Message) => m.id == id);
    var byTime := FirstIndex(ms, (m: Message) => m.timestamp == timestamp);
    assert byId < |ms| ==> ms[byId] in ms;
    assert byTime < |ms| ==> ms[byTime] in ms;
  }

  method FindMessageIndex(ms: seq<Message>, id: string, timestamp: int) returns (i: int)
    ensures Target(ms, id, timestamp, i) && i == TargetOf(ms, id, timestamp)
  {
    hide TargetOf;
    if id != "" {
      for k := 0 to |ms|
        invariant forall j | 0 <= j < k :: ms[j].id != id
      {
        if ms[k].id == id {
          assert ms[k] in ms;
          TargetOfIsTarget(ms, id, timestamp, k);
          return k;
        }
      }
    }
    for k := 0 to |ms|
      invariant forall j | 0 <= j < k :: ms[j].timestamp != timestamp
    {
      if ms[k].timestamp == timestamp {
        assert ms[k] in ms;
        TargetOfIsTarget(ms, id, timestamp, k);
        return k;
      }
    }
    TargetOfIsTarget(ms, id, timestamp, -1);
    return -1;
  }

  /** An unknown ID does not fail: the first message with the same timestamp is taken instead. */
  lemma UnknownIdFallsBack(ms: seq<Message>, id: string, timestamp: int, i: int)
    requires Target(ms, id, timestamp, i) && i >= 0 && forall m | m in ms :: m.id != id
    ensures ms[i].id != id && ms[i].timestamp == timestamp
  {
    assert ms[i] in ms;
  }

  // ---- votes ----

  function Voters(votes: map<string, string>, kind: string): set<string> {
    set u | u in votes && votes[u] == kind
  }

  /** Ups minus downs. */
  function Tally(votes: map<string, string>): int {
    |Voters(votes, "up")| - |Voters(votes, "down")|
  }

  predicate Ballots(votes: map<string, string>) {
    forall u | u in votes :: votes[u] == "up" || votes[u] == "down"
  }

  /** Voting the same way again takes the vote back. */
  function Recast(votes: map<string, string>, user: string, kind: string): map<string, string> {
    if user in votes && votes[user] == kind then votes - {user} else votes[user := kind]
  }

  function Weight(kind: string): int {
    if kind == "up" then 1 else -1
  }

  lemma VoterAdded(votes: map<string, string>, user: string, kind: string)
    requires user !in votes && (kind == "up" || kind == "down")
    ensures Tally(votes[user := kind]) == Tally(votes) + Weight(kind)
  {
    var more := votes[user := kind];
    var other := if kind == "up" then "down" else "up";
    assert Voters(more, kind) == Voters(votes, kind) + {user};
    assert Voters(more, other) == Voters(votes, other);
  }

  lemma RecastTally(votes: map<string, string>, user: string, kind: string)
    requires Ballots(votes) && (kind == "up" || kind == "down")
    ensures Tally(Recast(votes, user, kind))
         == Tally(votes) + if user !in votes then Weight(kind)
                           else if votes[user] == kind then -Weight(kind) else 2 * Weight(kind)
  {
    hide Tally;
    if user in votes {
      var rest := votes - {user};
      VoterAdded(rest, user, votes[user]);
      assert rest[user := votes[user]] == votes;
      if votes[user] != kind {
        VoterAdded(rest, user, kind);
        assert rest[user := kind] == votes[user := kind];
      }
    } else {
      VoterAdded(votes, user, kind);
    }
  }

  // ---- what holds of every message ----

  ghost predicate VotesCounted(m: Message) {
    (m.voteTotal.None? && m.userVotes.None?)
    || (m.voteTotal.Some? && m.userVotes.Some? && Ballots(m.userVotes.value) &&
        m.voteTotal.value == Tally(m.userVotes.value))
  }

  /** Versions are listed newest first and numbered from the oldest. */
  ghost predicate VersionsNumbered(m: Message) {
    m.versions.Some? ==> forall i | 0 <= i < |m.versions.value| ::
        m.versions.value[i].version == |m.versions.value| - 1 - i
  }

  /** The current version is the newest one, if there are versions. */
  ghost predicate NewestCurrent(m: Message) {
    && (m.currentVersion.Some? <==> m.versions.Some?)
    && (m.currentVersion.Some? ==> m.currentVersion.value == 0 < |m.versions.value|)
  }

  ghost predicate Sound(m: Message) {
    VotesCounted(m) && VersionsNumbered(m) && NewestCurrent(m)
  }

  /** A message as it is first announced by the server: no votes and no versions. */
  predicate Plain(m: Message) {
    m.voteTotal.None? && m.userVotes.None? && m.versions.None? && m.currentVersion.None? && !m.deleted
  }

  // ---- changes to one message ----

  function NewMessage(id: string, now: int, username: string, userId: string, roomId: string,
                      content: string, encrypted: string, replyTo: Option<int>): Message {
    Message(id, now, username, userId, roomId, content, "", "", encrypted, None, None, None, None, replyTo,
            Some(1), Some(map[userId := "up"]), false, false)
  }

  function Voted(m: Message, user: string, kind: string): Message {
    var votes := if m.userVotes.Some? then m.userVotes.value else map[];
    var total := if m.voteTotal.Some? then m.voteTotal.value else 0;
    m.(userVotes := Some(Recast(votes, user, kind)),
       voteTotal := Some(total + if user !in votes then Weight(kind)
                                 else if votes[user] == kind then -Weight(votes[user])
                                     else Weight(kind) - Weight(votes[user])))
  }

  function Edited(m: Message, encrypted: string): Message {
    m.(content := "", encryptedMessage := encrypted, encryptedFor := None, edited := true)
  }

  function Deleted(m: Message): Message {
    m.(content := "Message deleted", encryptedMessage := "", encryptedFor := None, versions := None,
       currentVersion := None, visibleTo := None, voteTotal := None, userVotes := None,
       edited := false, deleted := true)
  }

  /** Versions before the grant: the text as first sent becomes version 0, if there was one. */
  function OldVersions(m: Message): seq<MessageVersion> {
    if m.versions.Some? then m.versions.value
    else if m.encryptedMessage == "" then []
    else [MessageVersion(m.encryptedMessage, None, 0, "original version", m.timestamp)]
  }

  function Granted(m: Message, encrypted: string, requester: string, now: int): Message {
    var before := OldVersions(m);
    var summary := "access grant re-encryption for " + requester;
    m.(versions := Some([MessageVersion(encrypted, None, |before|, summary, now)] + before),
       currentVersion := Some(0), encryptedMessage := encrypted, encryptedFor := None)
  }

  const REQUESTED := "requests access"
  const STATUS := "You requested access"
  const PENDING := "[Pending]"
  const GRANTED := "[Access Granted]"
  const DENIED := "[Access Denied]"

  predicate OnlyFor(m: Message, user: string) {
    m.visibleTo == Some([user])
  }

  /** An answered request: the message that asks the author, and the status message of who asked. A
      grant is noted once on the first; a denial each time. */
  function RequestMarked(m: Message, author: string, mark: string): Message {
    if OnlyFor(m, author) && Contains(m.content, REQUESTED) && !(mark == GRANTED && Contains(m.content, GRANTED))
    then m.(content := ReplaceFirst(m.content, REQUESTED, REQUESTED + " " + mark)) else m
  }

  function StatusMarked(m: Message, requester: string, mark: string): Message {
    if OnlyFor(m, requester) && Contains(m.content, STATUS)
    then m.(content := ReplaceFirst(m.content, PENDING, mark)) else m
  }

  function Marked(m: Message, author: string, requester: string, mark: string): Message {
    StatusMarked(RequestMarked(m, author, mark), requester, mark)
  }

  function AllMarked(ms: seq<Message>, author: string, requester: string, mark: string): (r: seq<Message>)
    ensures |r| == |ms|
  {
    seq(|ms|, i requires 0 <= i < |ms| => Marked(ms[i], author, requester, mark))
  }

  /** Granting again leaves the request as it is; denying again adds another mark. */
  lemma {:induction false} MarkedAgain(m: Message, author: string)
    ensures var n := RequestMarked(m, author, GRANTED); RequestMarked(n, author, GRANTED) == n
    ensures var n := RequestMarked(m, author, DENIED);
      RequestMarked(n, author, DENIED) == n <==> !(OnlyFor(m, author) && Contains(m.content, REQUESTED))
  {
    if OnlyFor(m, author) && Contains(m.content, REQUESTED) {
      hide IndexOf;
      FoundAfterReplace(m.content, REQUESTED, REQUESTED + " " + GRANTED, REQUESTED + " ", GRANTED);
      FoundAfterReplace(m.content, REQUESTED, REQUESTED + " " + DENIED, REQUESTED, " " + DENIED);
      var n := RequestMarked(m, author, DENIED);
      FoundAfterReplace(n.content, REQUESTED, REQUESTED + " " + DENIED, REQUESTED, " " + DENIED);
    }
  }

  // ---- one message over time ----

  /** Every version listed before is still listed, at the end. */
  ghost predicate VersionsExtend(a: Option<seq<MessageVersion>>, b: Option<seq<MessageVersion>>) {
    a.Some? ==> b.Some? && |a.value| <= |b.value| && b.value[|b.value| - |a.value|..] == a.value
  }

  /** `n` can be what became of `m`. */
  ghost predicate Becomes(m: Message, n: Message) {
    && n.id == m.id && n.timestamp == m.timestamp && n.userId == m.userId && n.username == m.username
    && n.roomId == m.roomId && n.replyTo == m.replyTo
    && (m.deleted ==> n.deleted)
    && (VersionsExtend(m.versions, n.versions) || (n.deleted && !m.deleted))
  }

  lemma BecomesTransitive(a: Message, b: Message, c: Message)
    requires Becomes(a, b) && Becomes(b, c)
    ensures Becomes(a, c)
  {
    if VersionsExtend(a.versions, b.versions) && VersionsExtend(b.versions, c.versions) && a.versions.Some? {
      var x, y, z := a.versions.value, b.versions.value, c.versions.value;
      assert z[|z| - |x|..] == z[|z| - |y|..][|y| - |x|..];
    }
  }

  lemma NewSound(id: string, now: int, username: string, userId: string, roomId: string, content: string,
        encrypted: string, replyTo: Option<int>)
    ensures Sound(NewMessage(id, now, username, userId, roomId, content, encrypted, replyTo))
  {
    var none: map<string, string> := map[];
    assert Tally(none) == 0;
    VoterAdded(none, userId, "up");
    assert none[userId := "up"] == map[userId := "up"];
  }

  lemma VotedKeeps(m: Message, user: string, kind: string)
    requires Sound(m) && (kind == "up" || kind == "down")
    ensures Sound(Voted(m, user, kind)) && Becomes(m, Voted(m, user, kind))
    ensures var before := if m.userVotes.Some? then m.userVotes.value else map[];
      var after := Voted(m, user, kind).userVotes.value;
      && (forall u | u != user :: u in before <==> u in after)
      && (forall u | u != user && u in before :: after[u] == before[u])
      && (user in after <==> !(user in before && before[user] == kind))
      && (user in after ==> after[user] == kind)
  {
    var none: map<string, string> := map[];
    assert Tally(none) == 0;
    var votes := if m.userVotes.Some? then m.userVotes.value else none;
    RecastTally(votes, user, kind);
    hide Tally;
  }

  lemma EditedKeeps(m: Message, encrypted: string)
    requires Sound(m)
    ensures Sound(Edited(m, encrypted)) && Becomes(m, Edited(m, encrypted))
  {
  }

  lemma DeletedKeeps(m: Message)
    requires Sound(m) && !m.deleted
    ensures Sound(Deleted(m)) && Becomes(m, Deleted(m))
  {
  }

  lemma GrantedKeeps(m: Message, encrypted: string, requester: string, now: int)
    requires Sound(m)
    ensures var n := Granted(m, encrypted, requester, now);
      && Sound(n) && Becomes(m, n)
      && n.versions.value[n.currentVersion.value].encryptedMessage == n.encryptedMessage == encrypted
  {
    var before := OldVersions(m);
    var after := Granted(m, encrypted, requester, now).versions.value;
    assert forall i | 1 <= i < |after| :: after[i] == before[i - 1];
  }

  /** An edit leaves the list of versions behind: the current version then shows the old text. */
  lemma EditLeavesVersions(m: Message, granted: string, edited: string, requester: string, now: int)
    requires granted != edited
    ensures var n := Edited(Granted(m, granted, requester, now), edited);
      n.versions.value[n.currentVersion.value].encryptedMessage != n.encryptedMessage
  {
  }

  /** A deleted message is not protected from its author: an edit or a grant gives it text again, and
      it stays marked as deleted. */
  lemma DeletedTextReturns(m: Message, encrypted: string, requester: string, now: int)
    requires m.deleted
    ensures Edited(m, encrypted).deleted && Edited(m, encrypted).encryptedMessage == encrypted
    ensures Granted(m, encrypted, requester, now).deleted &&
        Granted(m, encrypted, requester, now).encryptedMessage == encrypted
  {
  }

  // ---- all messages ----

  type Rooms = map<string, seq<Message>>

  function Replaced(s: Rooms, room: string, i: nat, m: Message): Rooms
    requires room in s && i < |s[room]|
  {
    s[room := s[room][i := m]]
  }

  datatype Event =
    | OpenRoom(room: string)
    | Post(room: string, m: Message)
    | Send(room: string, id: string, now: int, username: string, actor: string, roomId: string,
           content: string, encrypted: string, replyTo: Option<int>)
    | Vote(room: string, id: string, timestamp: int, actor: string, kind: string)
    | Edit(room: string, id: string, timestamp: int, actor: string, encrypted: string)
    | Delete(room: string, id: string, timestamp: int, actor: string)
    | Grant(room: string, timestamp: int, actor: string, encrypted: string, requester: string, requesterId: string,
            dmRoom: string, now: int)
    | Deny(dmRoom: string, author: string, requesterId: string)

  function TargetIn(s: Rooms, room: string, id: string, timestamp: int): (i: int)
    ensures i >= 0 ==> room in s && i < |s[room]|
  {
    if room in s then TargetOf(s[room], id, timestamp) else -1
  }

  /** The message a grant re-encrypts: the granter's own, found by its timestamp. */
  function GrantTarget(s: Rooms, room: string, timestamp: int, actor: string): (i: int)
    ensures i >= 0 ==> room in s && i < |s[room]|
  {
    if room !in s then -1 else
      var i := FirstIndex(s[room], (m: Message) => m.timestamp == timestamp && m.userId == actor);
      if i < |s[room]| then i else -1
  }

  /** Only the author may change a message, and nobody a system message. */
  predicate MayChange(m: Message, actor: string) {
    m.userId == actor && m.userId != SYSTEM_USER_ID
  }

  function Next(s: Rooms, e: Event): Rooms {
    match e
    case OpenRoom(room) => if room in s then s else s[room := []]
    case Post(room, m) => if Plain(m) then s[room := [m] + Lookup(s, room, [])] else s
    case Send(room, id, now, username, actor, roomId, content, encrypted, replyTo) =>
      if room !in s || content == USER_JOINED || actor == "" then s
      else s[room := [NewMessage(id, now, username, actor, roomId, content, encrypted, replyTo)] + s[room]]
    case Vote(room, id, timestamp, actor, kind) =>
      var i := TargetIn(s, room, id, timestamp);
      if i < 0 || (kind != "up" && kind != "down") then s else Replaced(s, room, i, Voted(s[room][i], actor, kind))
    case Edit(room, id, timestamp, actor, encrypted) =>
      var i := TargetIn(s, room, id, timestamp);
      if i < 0 || !MayChange(s[room][i], actor) then s else Replaced(s, room, i, Edited(s[room][i], encrypted))
    case Delete(room, id, timestamp, actor) =>
      var i := TargetIn(s, room, id, timestamp);
      if i < 0 || s[room][i].deleted || !MayChange(s[room][i], actor) then s
      else Replaced(s, room, i, Deleted(s[room][i]))
    case Grant(room, timestamp, actor, encrypted, requester, requesterId, dmRoom, now) =>
      var i := GrantTarget(s, room, timestamp, actor);
      if i < 0 then s else
        var t := Replaced(s, room, i, Granted(s[room][i], encrypted, requester, now));
        Answered(t, dmRoom, actor, requesterId, GRANTED)
    case Deny(dmRoom, author, requesterId) => Answered(s, dmRoom, author, requesterId, DENIED)
  }

  /** An answer is noted in the room of the two. */
  function Answered(s: Rooms, dmRoom: string, author: string, requester: string, mark: string): Rooms {
    if author == "" || dmRoom !in s then s else s[dmRoom := AllMarked(s[dmRoom], author, requester, mark)]
  }

  /** The loop of a grant over the room of the two. */
  method MarkGranted(ms: seq<Message>, author: string, requester: string) returns (list: seq<Message>)
    ensures list == AllMarked(ms, author, requester, GRANTED)
  {
    hide Contains, ReplaceFirst;
    list := ms;
    for i := 0 to |list|
      invariant |list| == |ms|
      invariant forall j | 0 <= j < i :: list[j] == Marked(ms[j], author, requester, GRANTED)
      invariant forall j | i <= j < |list| :: list[j] == ms[j]
    {
      if list[i].visibleTo == Some([author]) && Contains(list[i].content, REQUESTED) {
        if !Contains(list[i].content, GRANTED) {
          list := list[i := list[i].(content := ReplaceFirst(list[i].content, REQUESTED, REQUESTED + " " + GRANTED))];
        }
      }
      if list[i].visibleTo == Some([requester]) && Contains(list[i].content, STATUS) {
        list := list[i := list[i].(content := ReplaceFirst(list[i].content, PENDING, GRANTED))];
      }
    }
  }

  /** The two loops of a denial. */
  method MarkDenied(ms: seq<Message>, author: string, requester: string) returns (list: seq<Message>)
    ensures list == AllMarked(ms, author, requester, DENIED)
  {
    hide Contains, ReplaceFirst;
    list := ms;
    for i := 0 to |list|
      invariant |list| == |ms|
      invariant forall j | 0 <= j < i :: list[j] == RequestMarked(ms[j], author, DENIED)
      invariant forall j | i <= j < |list| :: list[j] == ms[j]
    {
      if list[i].visibleTo == Some([author]) && Contains(list[i].content, REQUESTED) {
        list := list[i := list[i].(content := ReplaceFirst(list[i].content, REQUESTED, REQUESTED + " " + DENIED))];
      }
    }
    for i := 0 to |list|
      invariant |list| == |ms|
      invariant forall j | 0 <= j < i :: list[j] == Marked(ms[j], author, requester, DENIED)
      invariant forall j | i <= j < |list| :: list[j] == RequestMarked(ms[j], author, DENIED)
    {
      if list[i].visibleTo == Some([requester]) && Contains(list[i].content, STATUS) {
        list := list[i := list[i].(content := ReplaceFirst(list[i].content, PENDING, DENIED))];
      }
    }
  }

  class ChatMessages {
    var messages: Rooms

    constructor (loaded: Rooms)
      ensures messages == loaded
    {
      messages := loaded;
    }

    method SendMessage(room: string, id: string, now: int, username: string, actor: string, roomId: string,
                       content: string, encrypted: string, replyTo: Option<int>) returns (ok: bool)
      modifies this
      ensures messages == Next(old(messages), Send(room, id, now, username, actor, roomId, content, encrypted, replyTo))
      ensures ok <==> room in old(messages) && content != USER_JOINED && actor != ""
    {
      if room !in messages {
        return false;
      }
      if content == USER_JOINED {
        return false;
      }
      if actor == "" {
        return false;
      }
      var one := 1;
      var userVotes: map<string, string> := map[];
      userVotes := userVotes[actor := "up"];
      var newMessage := Message(id, now, username, actor, roomId, content, "", "", encrypted, None, None, None, None,
                                replyTo, Some(one), Some(userVotes), false, false);
      messages := messages[room := [newMessage] + messages[room]];
      return true;
    }

    method VoteMessage(room: string, id: string, timestamp: int, actor: string, kind: string) returns (ok: bool)
      modifies this
      ensures messages == Next(old(messages), Vote(room, id, timestamp, actor, kind))
      ensures ok <==> (kind == "up" || kind == "down") && TargetIn(old(messages), room, id, timestamp) >= 0
    {
      hide TargetOf, Target;
      if (kind != "up" && kind != "down") || room !in messages {
        return false;
      }
      var index := FindMessageIndex(messages[room], id, timestamp);
      if index < 0 {
        return false;
      }
      var target := messages[room][index];
      var votes := if target.userVotes.None? then map[] else target.userVotes.value;
      var total := if target.voteTotal.None? then 0 else target.voteTotal.value;
      if actor in votes && votes[actor] == kind {
        total := if votes[actor] == "up" then total - 1 else total + 1;
        votes := votes - {actor};
      } else if actor in votes {
        total := if votes[actor] == "up" then total - 1 else total + 1;
        votes := votes[actor := kind];
        total := if kind == "up" then total + 1 else total - 1;
      } else {
        votes := votes[actor := kind];
        total := if kind == "up" then total + 1 else total - 1;
      }
      target := target.(userVotes := Some(votes), voteTotal := Some(total));
      messages := messages[room := messages[room][index := target]];
      return true;
    }

    method EditMessage(room: string, id: string, timestamp: int, actor: string, encrypted: string) returns (ok: bool)
      modifies this
      ensures messages == Next(old(messages), Edit(room, id, timestamp, actor, encrypted))
      ensures ok <==> var i := TargetIn(old(messages), room, id, timestamp);
                      i >= 0 && MayChange(old(messages)[room][i], actor)
    {
      hide TargetOf, Target;
      if room !in messages {
        return false;
      }
      var index := FindMessageIndex(messages[room], id, timestamp);
      if index < 0 {
        return false;
      }
      var target := messages[room][index];
      if target.userId != actor {
        return false;
      }
      if target.userId == SYSTEM_USER_ID {
        return false;
      }
      target := target.(content := "");
      target := target.(encryptedMessage := encrypted);
      target := target.(encryptedFor := None);
      target := target.(edited := true);
      messages := messages[room := messages[room][index := target]];
      return true;
    }

    /** Deleting again succeeds without a further change. */
    method DeleteMessage(room: string, id: string, timestamp: int, actor: string) returns (ok: bool)
      modifies this
      ensures messages == Next(old(messages), Delete(room, id, timestamp, actor))
      ensures ok <==> var i := TargetIn(old(messages), room, id, timestamp);
                      i >= 0 && (old(messages)[room][i].deleted || MayChange(old(messages)[room][i], actor))
    {
      hide TargetOf, Target;
      if room !in messages {
        return false;
      }
      var index := FindMessageIndex(messages[room], id, timestamp);
      if index < 0 {
        return false;
      }
      var target := messages[room][index];
      if target.deleted {
        return true;
      }
      if target.userId != actor {
        return false;
      }
      if target.userId == SYSTEM_USER_ID {
        return false;
      }
      target := target.(content := "Message deleted", encryptedMessage := "", encryptedFor := None);
      target := target.(versions := None, currentVersion := None, visibleTo := None);
      target := target.(voteTotal := None, userVotes := None, edited := false, deleted := true);
      messages := messages[room := messages[room][index := target]];
      return true;
    }

    /** An empty list for a room that has none. */
    method OpenRoom(room: string)
      modifies this
      ensures messages == Next(old(messages), Event.OpenRoom(room))
    {
      if room !in messages {
        messages := messages[room := []];
      }
    }

    /** `handleGrantAccess`: the loop stops at the first message that is the granter's own; then the
        request is marked as granted in the room of the two. */
    method GrantAccess(lower: string -> string, room: string, timestamp: int, actor: string, encrypted: string,
                       requester: string, requesterId: string, now: int)
      returns (found: bool)
      requires actor != ""
      modifies this
      ensures var dmRoom := ServerRooms.BuildCanonicalDMRoom(lower, requesterId, actor);
        messages == Next(old(messages), Grant(room, timestamp, actor, encrypted, requester, requesterId, dmRoom, now))
      ensures found <==> GrantTarget(old(messages), room, timestamp, actor) >= 0
    {
      found := NewVersion(room, timestamp, actor, encrypted, requester, now);
      if !found {
        return;
      }
      var dmRoom := ServerRooms.BuildCanonicalDMRoom(lower, requesterId, actor);
      if dmRoom in messages {
        var list := MarkGranted(messages[dmRoom], actor, requesterId);
        messages := messages[dmRoom := list];
      }
    }

    /** `handleDenyAccess`, after the author of the message was found. */
    method DenyAccess(lower: string -> string, author: string, requesterId: string)
      requires author != ""
      modifies this
      ensures var dmRoom := ServerRooms.BuildCanonicalDMRoom(lower, requesterId, author);
        messages == Next(old(messages), Deny(dmRoom, author, requesterId))
    {
      var dmRoom := ServerRooms.BuildCanonicalDMRoom(lower, requesterId, author);
      if dmRoom in messages {
        var list := MarkDenied(messages[dmRoom], author, requesterId);
        messages := messages[dmRoom := list];
      }
    }

    method NewVersion(room: string, timestamp: int, actor: string, encrypted: string, requester: string, now: int)
      returns (found: bool)
      modifies this
      ensures var i := GrantTarget(old(messages), room, timestamp, actor);
        && (found <==> i >= 0)
        && messages == if i < 0 then old(messages)
             else Replaced(old(messages), room, i, Granted(old(messages)[room][i], encrypted, requester, now))
    {
      found := false;
      if room in messages {
        for i := 0 to |messages[room]|
          invariant messages == old(messages) && !found
          invariant forall j | 0 <= j < i ::
              !(messages[room][j].timestamp == timestamp && messages[room][j].userId == actor)
        {
          var m := messages[room][i];
          if m.timestamp == timestamp && m.userId == actor {
            found := true;
            assert i == GrantTarget(messages, room, timestamp, actor);
            var versions: seq<MessageVersion> := [];
            if m.versions.None? {
              if m.encryptedMessage != "" {
                versions := versions + [MessageVersion(m.encryptedMessage, None, 0, "original version", m.timestamp)];
              }
            } else {
              versions := m.versions.value;
            }
            assert versions == OldVersions(m);
            var changeSummary := "access grant re-encryption for " + requester;
            var newVersion := MessageVersion(encrypted, None, |versions|, changeSummary, now);
            m := m.(versions := Some([newVersion] + versions), currentVersion := Some(0));
            m := m.(encryptedMessage := encrypted, encryptedFor := None);
            assert m == Granted(messages[room][i], encrypted, requester, now);
            messages := messages[room := messages[room][i := m]];
            break;
          }
        }
      }
    }
  }

  // ---- runs ----

  function Run(s: Rooms, events: seq<Event>): Rooms {
    if events == [] then s else Next(Run(s, events[..|events| - 1]), events[|events| - 1])
  }

  ghost predicate AllSound(s: Rooms) {
    forall room, i | room in s && 0 <= i < |s[room]| :: Sound(s[room][i])
  }

  /** Messages are counted from the oldest, which stays last. */
  ghost predicate ListBecomes(ms: seq<Message>, ns: seq<Message>) {
    |ms| <= |ns| && forall i | 0 <= i < |ms| :: Becomes(ms[i], ns[|ns| - |ms| + i])
  }

  ghost predicate RoomsBecome(s: Rooms, t: Rooms) {
    forall room | room in s :: room in t && ListBecomes(s[room], t[room])
  }

  lemma SameBecomes(s: Rooms)
    ensures RoomsBecome(s, s)
  {
  }

  lemma ReplacedKeeps(s: Rooms, room: string, i: nat, m: Message)
    requires AllSound(s) && room in s && i < |s[room]| && Sound(m) && Becomes(s[room][i], m)
    ensures AllSound(Replaced(s, room, i, m)) && RoomsBecome(s, Replaced(s, room, i, m))
  {
    hide Sound;
    SameBecomes(s);
  }

  lemma PrependedKeeps(s: Rooms, room: string, m: Message)
    requires AllSound(s) && Sound(m)
    ensures var t := s[room := [m] + Lookup(s, room, [])]; AllSound(t) && RoomsBecome(s, t)
  {
    hide Sound;
    SameBecomes(s);
    var t := s[room := [m] + Lookup(s, room, [])];
    forall i | 0 <= i < |t[room]| ensures Sound(t[room][i]) {
      if i > 0 { assert t[room][i] == s[room][i - 1]; }
    }
  }

  lemma NextKeeps(s: Rooms, e: Event)
    requires AllSound(s)
    ensures AllSound(Next(s, e)) && RoomsBecome(s, Next(s, e))
  {
    hide Sound, Becomes, AllSound, RoomsBecome, Voted, Edited, Deleted, Granted, NewMessage, Replaced;
    hide TargetIn, GrantTarget, Answered;
    SameBecomes(s);
    match e
    case OpenRoom(room) => if room !in s { OpenedKeeps(s, room); }
    case Post(room, m) => if Plain(m) { PlainSound(m); PrependedKeeps(s, room, m); }
    case Send(room, id, now, username, actor, roomId, content, encrypted, replyTo) =>
      NewSound(id, now, username, actor, roomId, content, encrypted, replyTo);
      PrependedKeeps(s, room, NewMessage(id, now, username, actor, roomId, content, encrypted, replyTo));
    case Vote(room, id, timestamp, actor, kind) =>
      var i := TargetIn(s, room, id, timestamp);
      if i >= 0 && (kind == "up" || kind == "down") {
        SoundAt(s, room, i);
        VotedKeeps(s[room][i], actor, kind);
        ReplacedKeeps(s, room, i, Voted(s[room][i], actor, kind));
      }
    case Edit(room, id, timestamp, actor, encrypted) =>
      var i := TargetIn(s, room, id, timestamp);
      if i >= 0 {
        SoundAt(s, room, i);
        EditedKeeps(s[room][i], encrypted);
        ReplacedKeeps(s, room, i, Edited(s[room][i], encrypted));
      }
    case Delete(room, id, timestamp, actor) =>
      var i := TargetIn(s, room, id, timestamp);
      if i >= 0 && !s[room][i].deleted {
        SoundAt(s, room, i);
        DeletedKeeps(s[room][i]);
        ReplacedKeeps(s, room, i, Deleted(s[room][i]));
      }
    case Grant(room, timestamp, actor, encrypted, requester, requesterId, dmRoom, now) =>
      var i := GrantTarget(s, room, timestamp, actor);
      if i >= 0 {
        SoundAt(s, room, i);
        GrantedKeeps(s[room][i], encrypted, requester, now);
        var t := Replaced(s, room, i, Granted(s[room][i], encrypted, requester, now));
        ReplacedKeeps(s, room, i, Granted(s[room][i], encrypted, requester, now));
        AnsweredKeeps(t, dmRoom, actor, requesterId, GRANTED);
        RoomsBecomeTransitive(s, t, Next(s, e));
      }
    case Deny(dmRoom, author, requesterId) => AnsweredKeeps(s, dmRoom, author, requesterId, DENIED);
  }

  lemma {:induction false} OpenedKeeps(s: Rooms, room: string)
    requires AllSound(s) && room !in s
    ensures AllSound(s[room := []]) && RoomsBecome(s, s[room := []])
  {
    hide Sound;
    SameBecomes(s);
  }

  lemma {:induction false} MarkedKeeps(m: Message, author: string, requester: string, mark: string)
    requires Sound(m)
    ensures Sound(Marked(m, author, requester, mark)) && Becomes(m, Marked(m, author, requester, mark))
  {
    hide Contains, ReplaceFirst, Tally, Ballots;
  }

  lemma {:induction false} AnsweredKeeps(s: Rooms, dmRoom: string, author: string, requester: string, mark: string)
    requires AllSound(s)
    ensures var t := Answered(s, dmRoom, author, requester, mark); AllSound(t) && RoomsBecome(s, t)
  {
    SameBecomes(s);
    hide Sound, Becomes, Marked;
    if author != "" && dmRoom in s {
      var t := Answered(s, dmRoom, author, requester, mark);
      forall i | 0 <= i < |s[dmRoom]| ensures Sound(t[dmRoom][i]) && Becomes(s[dmRoom][i], t[dmRoom][i]) {
        MarkedKeeps(s[dmRoom][i], author, requester, mark);
      }
    }
  }

  lemma PlainSound(m: Message)
    requires Plain(m)
    ensures Sound(m)
  {
  }

  lemma SoundAt(s: Rooms, room: string, i: nat)
    requires AllSound(s) && room in s && i < |s[room]|
    ensures Sound(s[room][i])
  {
  }

  lemma RoomsBecomeTransitive(s: Rooms, t: Rooms, u: Rooms)
    requires RoomsBecome(s, t) && RoomsBecome(t, u)
    ensures RoomsBecome(s, u)
  {
    hide Becomes;
    forall room | room in s ensures room in u && ListBecomes(s[room], u[room]) {
      var ms, ns, os := s[room], t[room], u[room];
      forall i | 0 <= i < |ms| ensures Becomes(ms[i], os[|os| - |ms| + i]) {
        BecomesTransitive(ms[i], ns[|ns| - |ms| + i], os[|os| - |ns| + (|ns| - |ms| + i)]);
      }
    }
  }

  /** SAFETY OVER RUNS. Whatever is sent, voted, edited, deleted and granted: every message's vote
      total is ups minus downs or both are absent, its versions are numbered from the oldest, and
      between any two moments its identity, author and reply target stay, a delete is never undone, and
      listed versions stay listed until a delete clears them. */
  lemma {:induction false} RunKeeps(s: Rooms, events: seq<Event>, n: nat)
    requires AllSound(s) && n <= |events|
    ensures AllSound(Run(s, events)) && RoomsBecome(Run(s, events[..n]), Run(s, events))
  {
    hide AllSound, RoomsBecome, Next;
    if events == [] {
      assert events[..n] == events;
      SameBecomes(s);
    } else {
      var before := events[..|events| - 1];
      RunKeeps(s, before, if n < |events| then n else 0);
      NextKeeps(Run(s, before), events[|events| - 1]);
      if n < |events| {
        assert before[..n] == events[..n];
        RoomsBecomeTransitive(Run(s, events[..n]), Run(s, before), Run(s, events));
      } else {
        assert events[..n] == events;
        SameBecomes(Run(s, events));
      }
    }
  }

  /** What the conditional upsert relies on holds of every message of a running server, whether it
      started empty or on loaded messages. */
  lemma {:induction false} ServerMessagesSettled(loaded: Rooms, events: seq<Event>, room: string, i: nat)
    requires AllSound(loaded) && room in Run(loaded, events) && i < |Run(loaded, events)[room]|
    ensures var m := Run(loaded, events)[room][i]; Settled(m.voteTotal, m.userVotes, m.currentVersion)
  {
    RunKeeps(loaded, events, 0);
    SoundAt(Run(loaded, events), room, i);
  }
}
