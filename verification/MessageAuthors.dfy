/** Who can change what of a message, over whole runs of the server. Messages are found again by their
    place from the end of the room's list, which no later message moves. */
module MessageAuthors {
  import opened ChatTypes
  import opened Text
  import opened MessageLifecycle

  predicate Has(s: Rooms, room: string, k: int) {
    room in s && 0 <= k < |s[room]|
  }

  /** The message at place `k` from the end. */
  function At(s: Rooms, room: string, k: int): Message
    requires Has(s, room, k)
  {
    s[room][|s[room]| - 1 - k]
  }

  function Moment(s: Rooms, events: seq<Event>, i: int): Rooms
    requires 0 <= i <= |events|
  {
    Run(s, events[..i])
  }

  // ---- one event ----

  predicate ByAuthor(e: Event, room: string, author: string) {
    (e.Edit? || e.Delete? || e.Grant?) && e.room == room && e.actor == author
  }

  /** A request is answered in the room. */
  predicate Answers(e: Event, room: string) {
    (e.Grant? || e.Deny?) && e.dmRoom == room
  }

  function AfterGrant(m: Message, e: Event): Message
    requires e.Grant?
  {
    Granted(m, e.encrypted, e.requester, e.now)
  }

  function AfterAnswer(m: Message, e: Event): Message
    requires e.Grant? || e.Deny?
  {
    if e.Grant? then Marked(m, e.actor, e.requesterId, GRANTED) else Marked(m, e.author, e.requesterId, DENIED)
  }

  /** What one event can make of a message. */
  predicate StepOf(m: Message, n: Message, e: Event, room: string) {
    || n == m
    || (e.Vote? && e.room == room && n == Voted(m, e.actor, e.kind))
    || (e.Edit? && ByAuthor(e, room, m.userId) && m.userId != SYSTEM_USER_ID && n == Edited(m, e.encrypted))
    || (e.Delete? && ByAuthor(e, room, m.userId) && m.userId != SYSTEM_USER_ID && !m.deleted && n == Deleted(m))
    || (e.Grant? && ByAuthor(e, room, m.userId) && n == AfterGrant(m, e))
    || (e.Grant? && ByAuthor(e, room, m.userId) && Answers(e, room) && n == AfterAnswer(AfterGrant(m, e), e))
    || (Answers(e, room) && n == AfterAnswer(m, e))
  }

  lemma {:induction false} ReplacedAt(s: Rooms, target: string, i: nat, m: Message, room: string, k: int)
    requires target in s && i < |s[target]| && Has(s, room, k)
    ensures var t := Replaced(s, target, i, m);
      Has(t, room, k)
      && At(t, room, k) == if target == room && i == |s[room]| - 1 - k then m else At(s, room, k)
  {
  }

  lemma {:induction false} AnsweredAt(s: Rooms, dmRoom: string, author: string, requester: string, mark: string,
        room: string, k: int)
    requires Has(s, room, k)
    ensures var t := Answered(s, dmRoom, author, requester, mark);
      Has(t, room, k) && (At(t, room, k) == At(s, room, k)
      || (dmRoom == room && At(t, room, k) == Marked(At(s, room, k), author, requester, mark)))
  {
    hide Marked;
  }

  lemma {:induction false} FoundOwn(s: Rooms, room: string, timestamp: int, actor: string)
    ensures var i := GrantTarget(s, room, timestamp, actor); i >= 0 ==> s[room][i].userId == actor
  {
  }

  lemma {:induction false} PrependedAt(s: Rooms, target: string, m: Message, room: string, k: int)
    requires Has(s, room, k)
    ensures var t := s[target := [m] + Lookup(s, target, [])]; Has(t, room, k) && At(t, room, k) == At(s, room, k)
  {
  }

  lemma {:induction false} GrantStep(s: Rooms, e: Event, room: string, k: int)
    requires Has(s, room, k) && e.Grant?
    ensures Has(Next(s, e), room, k) && StepOf(At(s, room, k), At(Next(s, e), room, k), e, room)
  {
    FoundOwn(s, e.room, e.timestamp, e.actor);
    var i := GrantTarget(s, e.room, e.timestamp, e.actor);
    hide Granted, Marked, Replaced, Answered, GrantTarget, Has, At, Voted, Edited, Deleted;
    if i >= 0 {
      var t := Replaced(s, e.room, i, Granted(s[e.room][i], e.encrypted, e.requester, e.now));
      ReplacedAt(s, e.room, i, Granted(s[e.room][i], e.encrypted, e.requester, e.now), room, k);
      AnsweredAt(t, e.dmRoom, e.actor, e.requesterId, GRANTED, room, k);
      SameMessage(s, room, k);
    }
  }

  lemma SameMessage(s: Rooms, room: string, k: int)
    requires Has(s, room, k)
    ensures room in s && 0 <= |s[room]| - 1 - k < |s[room]| && At(s, room, k) == s[room][|s[room]| - 1 - k]
  {
  }

  lemma {:induction false} TargetStep(s: Rooms, e: Event, room: string, k: int)
    requires Has(s, room, k) && (e.Vote? || e.Edit? || e.Delete?)
    ensures Has(Next(s, e), room, k) && StepOf(At(s, room, k), At(Next(s, e), room, k), e, room)
  {
    SameMessage(s, room, k);
    var i := TargetIn(s, e.room, e.id, e.timestamp);
    hide Voted, Edited, Deleted, Granted, Marked, Replaced, TargetIn, Has, At;
    if i >= 0 {
      var m := s[e.room][i];
      var n := if e.Vote? then Voted(m, e.actor, e.kind) else if e.Edit? then Edited(m, e.encrypted) else Deleted(m);
      ReplacedAt(s, e.room, i, n, room, k);
    }
  }

  lemma {:induction false} NextStep(s: Rooms, e: Event, room: string, k: int)
    requires Has(s, room, k)
    ensures Has(Next(s, e), room, k) && StepOf(At(s, room, k), At(Next(s, e), room, k), e, room)
  {
    if e.Grant? {
      GrantStep(s, e, room, k);
    } else if e.Vote? || e.Edit? || e.Delete? {
      TargetStep(s, e, room, k);
    } else {
      hide Voted, Edited, Deleted, Granted, Marked, NewMessage, Plain, Replaced, Answered, TargetIn, Has, At;
      match e
      case OpenRoom(target) => OpenedAt(s, target, room, k);
      case Post(target, m) => PrependedAt(s, target, m, room, k);
      case Send(target, id, now, username, actor, roomId, content, encrypted, replyTo) =>
        PrependedAt(s, target, NewMessage(id, now, username, actor, roomId, content, encrypted, replyTo), room, k);
      case Deny(dmRoom, author, requesterId) => AnsweredAt(s, dmRoom, author, requesterId, DENIED, room, k);
    }
  }

  lemma {:induction false} OpenedAt(s: Rooms, target: string, room: string, k: int)
    requires Has(s, room, k)
    ensures target !in s ==> Has(s[target := []], room, k) && At(s[target := []], room, k) == At(s, room, k)
  {
  }

  /** What readers are given of a message besides its plain content and its votes. */
  predicate SameText(m: Message, n: Message) {
    && n.encryptedMessage == m.encryptedMessage && n.encryptedFor == m.encryptedFor && n.versions == m.versions
    && n.currentVersion == m.currentVersion && n.visibleTo == m.visibleTo
    && n.edited == m.edited && n.deleted == m.deleted
  }

  function VoteOf(m: Message, user: string): Option<string> {
    if m.userVotes.Some? && user in m.userVotes.value then Some(m.userVotes.value[user]) else None
  }

  /** Who and what it takes for one event to change a message. */
  predicate Needs(m: Message, n: Message, e: Event, room: string, user: string) {
    && n.userId == m.userId
    && (SameText(m, n) || ByAuthor(e, room, m.userId))
    && (n.edited != m.edited || n.deleted != m.deleted ==>
          !e.Grant? && ByAuthor(e, room, m.userId) && m.userId != "system")
    && (n.content == m.content || Answers(e, room) || (!e.Grant? && ByAuthor(e, room, m.userId)))
    && (n.encryptedMessage == m.encryptedMessage
        || (ByAuthor(e, room, m.userId) && n.encryptedMessage == if e.Delete? then "" else e.encrypted))
    && (VoteOf(n, user) == VoteOf(m, user)
        || (e.Vote? && e.room == room && e.actor == user) || (e.Delete? && ByAuthor(e, room, m.userId)))
  }

  lemma {:induction false} StepNeeds(m: Message, n: Message, e: Event, room: string, user: string)
    requires StepOf(m, n, e, room)
    ensures Needs(m, n, e, room, user)
  {
    if e.Vote? {
      VoteNeeds(m, n, e, room, user);
    } else if e.Grant? || e.Deny? {
      AnswerNeeds(m, n, e, room, user);
    } else {
      hide Voted, AfterGrant, AfterAnswer;
    }
  }

  lemma {:induction false} VoteNeeds(m: Message, n: Message, e: Event, room: string, user: string)
    requires StepOf(m, n, e, room) && e.Vote?
    ensures Needs(m, n, e, room, user)
  {
    VotedChanges(m, e.actor, e.kind, user);
    hide Voted;
  }

  lemma {:induction false} AnswerNeeds(m: Message, n: Message, e: Event, room: string, user: string)
    requires StepOf(m, n, e, room) && (e.Grant? || e.Deny?)
    ensures Needs(m, n, e, room, user)
  {
    if e.Grant? {
      GrantedChanges(m, e.encrypted, e.requester, e.now);
      MarkedChanges(m, e.actor, e.requesterId, GRANTED);
      MarkedChanges(AfterGrant(m, e), e.actor, e.requesterId, GRANTED);
    } else {
      MarkedChanges(m, e.author, e.requesterId, DENIED);
    }
    hide Voted, Granted, Marked, Edited, Deleted;
  }

  lemma {:induction false} VotedChanges(m: Message, voter: string, kind: string, user: string)
    ensures var n := Voted(m, voter, kind); n == m.(userVotes := n.userVotes, voteTotal := n.voteTotal)
    ensures user != voter ==> VoteOf(Voted(m, voter, kind), user) == VoteOf(m, user)
  {
    hide Weight;
  }

  lemma {:induction false} GrantedChanges(m: Message, encrypted: string, requester: string, now: int)
    ensures var n := Granted(m, encrypted, requester, now);
      n == m.(versions := n.versions, currentVersion := n.currentVersion, encryptedMessage := encrypted,
              encryptedFor := None)
  {
  }

  lemma {:induction false} MarkedChanges(m: Message, author: string, requester: string, mark: string)
    ensures var n := Marked(m, author, requester, mark); n == m.(content := n.content)
    ensures m.visibleTo.None? ==> Marked(m, author, requester, mark) == m
  {
    hide Contains, ReplaceFirst;
  }

  lemma {:induction false} NextMoment(s: Rooms, events: seq<Event>, i: int)
    requires 0 <= i < |events|
    ensures Moment(s, events, i + 1) == Next(Moment(s, events, i), events[i])
  {
    hide Next;
    assert events[..i + 1][..i] == events[..i];
  }

  lemma {:induction false} Stays(s: Rooms, events: seq<Event>, a: int, b: int, room: string, k: int)
    requires 0 <= a <= b <= |events| && Has(Moment(s, events, a), room, k)
    ensures Has(Moment(s, events, b), room, k)
    ensures At(Moment(s, events, b), room, k).userId == At(Moment(s, events, a), room, k).userId
    decreases b - a
  {
    hide Next, Moment, StepOf, Has, At;
    if a < b {
      Stays(s, events, a, b - 1, room, k);
      NextMoment(s, events, b - 1);
      NextStep(Moment(s, events, b - 1), events[b - 1], room, k);
      StepNeeds(At(Moment(s, events, b - 1), room, k), At(Moment(s, events, b), room, k), events[b - 1], room, "");
    }
  }

  /** ONLY ITS AUTHOR. Whatever a server does between two moments: a message's text, its versions, its
      audience and its marks change only if its own author edited, deleted or granted in between; it is
      marked as edited or deleted only by the author's edit or delete, and never if it is the system's; its
      plain content changes only by these or by the answer to a request; and a vote on it only by the voter
      or by the author's delete. */
  lemma {:induction false} OnlyItsAuthor(s: Rooms, events: seq<Event>, a: int, b: int, room: string, k: int,
        user: string)
    requires 0 <= a <= b <= |events| && Has(Moment(s, events, a), room, k)
    ensures Has(Moment(s, events, b), room, k)
    ensures var m, n := At(Moment(s, events, a), room, k), At(Moment(s, events, b), room, k);
      && (SameText(m, n) || exists i :: a <= i < b && ByAuthor(events[i], room, m.userId))
      && (n.edited != m.edited || n.deleted != m.deleted ==>
            m.userId != "system" && exists i :: a <= i < b && !events[i].Grant? && ByAuthor(events[i], room, m.userId))
      && (n.content == m.content || exists i | a <= i < b ::
            (Answers(events[i], room) || (!events[i].Grant? && ByAuthor(events[i], room, m.userId))))
      && (VoteOf(n, user) == VoteOf(m, user) || exists i | a <= i < b ::
            ((events[i].Vote? && events[i].room == room && events[i].actor == user)
             || (events[i].Delete? && ByAuthor(events[i], room, m.userId))))
    decreases b - a
  {
    hide Next, Moment, StepOf, Has, At, VoteOf;
    if a < b {
      Stays(s, events, a, b - 1, room, k);
      OnlyItsAuthor(s, events, a, b - 1, room, k, user);
      NextMoment(s, events, b - 1);
      NextStep(Moment(s, events, b - 1), events[b - 1], room, k);
      StepNeeds(At(Moment(s, events, b - 1), room, k), At(Moment(s, events, b), room, k), events[b - 1], room, user);
    }
  }

  /** What a message says is what its author last put there: if its encrypted text is not what it was, it
      is the text of an edit or a grant of the author's in between, or empty by the author's delete. */
  lemma {:induction false} TextIsTheAuthors(s: Rooms, events: seq<Event>, a: int, b: int, room: string, k: int)
    requires 0 <= a <= b <= |events| && Has(Moment(s, events, a), room, k)
    ensures Has(Moment(s, events, b), room, k)
    ensures var m, n := At(Moment(s, events, a), room, k), At(Moment(s, events, b), room, k);
      n.encryptedMessage == m.encryptedMessage || exists i | a <= i < b ::
        (ByAuthor(events[i], room, m.userId)
         && n.encryptedMessage == if events[i].Delete? then "" else events[i].encrypted)
    decreases b - a
  {
    hide Next, Moment, StepOf, Has, At;
    if a < b {
      Stays(s, events, a, b - 1, room, k);
      TextIsTheAuthors(s, events, a, b - 1, room, k);
      NextMoment(s, events, b - 1);
      NextStep(Moment(s, events, b - 1), events[b - 1], room, k);
      StepNeeds(At(Moment(s, events, b - 1), room, k), At(Moment(s, events, b), room, k), events[b - 1], room, "");
    }
  }

  /** Nothing of a deleted message can be read. */
  predicate Emptied(m: Message) {
    && m.deleted && m.content == "Message deleted" && m.encryptedMessage == "" && m.encryptedFor.None?
    && m.versions.None? && m.currentVersion.None? && m.visibleTo.None?
  }

  lemma {:induction false} StepEmpties(m: Message, n: Message, e: Event, room: string)
    requires StepOf(m, n, e, room)
    ensures !m.deleted && n.deleted ==> Emptied(n)
    ensures Emptied(m) && !((e.Edit? || e.Grant?) && ByAuthor(e, room, m.userId)) ==> Emptied(n)
  {
    if e.Vote? { VotedChanges(m, e.actor, e.kind, ""); }
    if e.Grant? {
      GrantedChanges(m, e.encrypted, e.requester, e.now);
      MarkedChanges(m, e.actor, e.requesterId, GRANTED);
      MarkedChanges(AfterGrant(m, e), e.actor, e.requesterId, GRANTED);
    }
    if e.Deny? { MarkedChanges(m, e.author, e.requesterId, DENIED); }
    hide Voted, Granted, Marked;
  }

  /** DELETED IS GONE. From the moment a message is deleted until its author next edits it or grants
      access, neither its content nor its encrypted text nor any version can be read. */
  lemma {:induction false} DeletedIsGone(s: Rooms, events: seq<Event>, a: int, b: int, room: string, k: int)
    requires 0 <= a < b <= |events| && Has(Moment(s, events, a), room, k)
    requires Has(Moment(s, events, a + 1), room, k)
    requires !At(Moment(s, events, a), room, k).deleted && At(Moment(s, events, a + 1), room, k).deleted
    requires forall i | a < i < b && (events[i].Edit? || events[i].Grant?) && events[i].room == room ::
        events[i].actor != At(Moment(s, events, a), room, k).userId
    ensures Has(Moment(s, events, b), room, k) && Emptied(At(Moment(s, events, b), room, k))
    decreases b - a
  {
    hide Next, Moment, StepOf, Has, At, Emptied;
    if a + 1 < b {
      DeletedIsGone(s, events, a, b - 1, room, k);
    }
    Stays(s, events, a, b - 1, room, k);
    NextMoment(s, events, b - 1);
    NextStep(Moment(s, events, b - 1), events[b - 1], room, k);
    StepEmpties(At(Moment(s, events, b - 1), room, k), At(Moment(s, events, b), room, k), events[b - 1], room);
  }

  // ---- what the author's events do ----

  /** A request addresses message `i`: the first with the given ID, or if none has it the first of the
      given time. */
  predicate Addressed(ms: seq<Message>, id: string, timestamp: int, i: int) {
    0 <= i < |ms| &&
    if id != "" && (exists m :: m in ms && m.id == id)
    then ms[i].id == id && forall j | 0 <= j < i :: ms[j].id != id
    else ms[i].timestamp == timestamp && forall j | 0 <= j < i :: ms[j].timestamp != timestamp
  }

  lemma {:induction false} AddressedIsTarget(s: Rooms, room: string, id: string, timestamp: int, i: int)
    requires room in s && Addressed(s[room], id, timestamp, i)
    ensures TargetIn(s, room, id, timestamp) == i
  {
    TargetOfIsTarget(s[room], id, timestamp, i);
    hide TargetOf;
    assert s[room][i] in s[room];
  }

  /** An edit by the author of a message that is not the system's replaces its text; nobody else's does
      anything. */
  lemma {:induction false} EditTakes(s: Rooms, room: string, id: string, timestamp: int, actor: string,
        encrypted: string, i: int)
    requires room in s && Addressed(s[room], id, timestamp, i)
    ensures var m := s[room][i];
      Next(s, Edit(room, id, timestamp, actor, encrypted))
      == if m.userId == actor && actor != "system"
         then s[room := s[room][i := m.(content := "", encryptedMessage := encrypted, encryptedFor := None,
                                        edited := true)]]
         else s
  {
    AddressedIsTarget(s, room, id, timestamp, i);
    hide TargetIn, Addressed;
  }

  /** A delete by the author empties a message once. */
  lemma {:induction false} DeleteTakes(s: Rooms, room: string, id: string, timestamp: int, actor: string, i: int)
    requires room in s && Addressed(s[room], id, timestamp, i)
    ensures var m := s[room][i];
      var gone := Message(m.id, m.timestamp, m.username, m.userId, m.roomId, "Message deleted", m.keyTransferPackage,
                          m.keyTransferFrom, "", None, None, None, None, m.replyTo, None, None, false, true);
      Next(s, Delete(room, id, timestamp, actor))
      == if m.userId == actor && actor != "system" && !m.deleted then s[room := s[room][i := gone]] else s
  {
    AddressedIsTarget(s, room, id, timestamp, i);
    hide TargetIn, Addressed;
  }

  /** A message sent to a known room by a named user, and not with the text of a join, is the room's
      newest, with the sender's own vote. */
  lemma {:induction false} SentIsFirst(s: Rooms, room: string, id: string, now: int, username: string, actor: string,
        roomId: string, content: string, encrypted: string, replyTo: Option<int>)
    ensures Next(s, Send(room, id, now, username, actor, roomId, content, encrypted, replyTo))
         == if room in s && content != "<-- has entered the room" && actor != ""
            then s[room := [Message(id, now, username, actor, roomId, content, "", "", encrypted, None, None, None,
                                    None, replyTo, Some(1), Some(map[actor := "up"]), false, false)] + s[room]]
            else s
  {
  }

  /** A grant puts the new text in front of the versions there were; the first one keeps the text as sent. */
  lemma {:induction false} GrantKeepsOldText(m: Message, encrypted: string, requester: string, now: int)
    ensures var vs := Granted(m, encrypted, requester, now).versions.value;
      && vs[0] == MessageVersion(encrypted, None, |vs| - 1, "access grant re-encryption for " + requester, now)
      && (m.versions.Some? ==> vs[1..] == m.versions.value)
      && (m.versions.None? && m.encryptedMessage != "" ==>
            vs[1..] == [MessageVersion(m.encryptedMessage, None, 0, "original version", m.timestamp)])
      && (m.versions.None? && m.encryptedMessage == "" ==> |vs| == 1)
  {
  }

  /** An answer is noted on the request, which only the author sees, and on the pending status message,
      which only the requester sees; on no other message. */
  lemma {:induction false} AnswersNoted(m: Message, author: string, requester: string, mark: string)
    requires author != requester && (mark == "[Access Granted]" || mark == "[Access Denied]")
    ensures var n := Marked(m, author, requester, mark);
      && n == m.(content := n.content)
      && (m.visibleTo == Some([author]) && Contains(m.content, REQUESTED) ==> Contains(n.content, mark))
      && (m.visibleTo == Some([requester]) && Contains(m.content, STATUS) && Contains(m.content, PENDING) ==>
            Contains(n.content, mark))
      && (m.visibleTo != Some([author]) && m.visibleTo != Some([requester]) ==> n == m)
  {
    hide IndexOf, ReplaceFirst, Contains;
    if Contains(m.content, REQUESTED) {
      FoundAfterReplace(m.content, REQUESTED, REQUESTED + " " + mark, REQUESTED + " ", mark);
    }
    if Contains(m.content, PENDING) {
      FoundAfterReplace(m.content, PENDING, mark, mark, "");
    }
  }

  /** A grant re-encrypts the granter's own message, the first of that time; without one it does nothing,
      not even answer the request. Otherwise the request is answered in the room of the two. */
  lemma {:induction false} GrantTakes(s: Rooms, e: Event, i: int)
    requires e.Grant? && e.actor != "" && e.room in s && e.dmRoom != e.room
    requires 0 <= i <= |s[e.room]| && forall j | 0 <= j < i ::
        !(s[e.room][j].timestamp == e.timestamp && s[e.room][j].userId == e.actor)
    requires i < |s[e.room]| ==> s[e.room][i].timestamp == e.timestamp && s[e.room][i].userId == e.actor
    ensures i == |s[e.room]| ==> Next(s, e) == s
    ensures i < |s[e.room]| ==>
        var t := s[e.room := s[e.room][i := AfterGrant(s[e.room][i], e)]];
        Next(s, e) == if e.dmRoom !in s then t
                      else t[e.dmRoom := seq(|s[e.dmRoom]|, k requires 0 <= k < |s[e.dmRoom]| =>
                               Marked(s[e.dmRoom][k], e.actor, e.requesterId, "[Access Granted]"))]
  {
    FoundAt(s, e.room, e.timestamp, e.actor, i);
    hide Granted, Marked;
  }

  lemma {:induction false} FoundAt(s: Rooms, room: string, timestamp: int, actor: string, i: int)
    requires room in s && 0 <= i <= |s[room]|
    requires forall j | 0 <= j < i :: !(s[room][j].timestamp == timestamp && s[room][j].userId == actor)
    requires i < |s[room]| ==> s[room][i].timestamp == timestamp && s[room][i].userId == actor
    ensures GrantTarget(s, room, timestamp, actor) == if i == |s[room]| then -1 else i
  {
  }

  /** A denial answers the request and does nothing else. */
  lemma {:induction false} DenyTakes(s: Rooms, dmRoom: string, author: string, requesterId: string)
    ensures Next(s, Deny(dmRoom, author, requesterId))
         == if author == "" || dmRoom !in s then s
            else s[dmRoom := seq(|s[dmRoom]|, k requires 0 <= k < |s[dmRoom]| =>
                     Marked(s[dmRoom][k], author, requesterId, "[Access Denied]"))]
  {
    hide Marked;
  }
}
