/** The reconnecting client socket (src/utils/websocketClient.ts). Browser sockets are numbered in the
    order they are created; a socket's transition to open and its `onopen` handler are one step, as are
    its transition to closed and `onclose`. */
module WebSocketQueue {
  import opened ChatTypes

  datatype Frame = Frame(event: string, payload: string)

  datatype ReadyState = Connecting | Opened | Closing | Closed

  /** One call of `ws.send`: on which socket, and an emitted frame or the credentials. */
  datatype Sent = Data(socket: nat, frame: Frame) | Auth(socket: nat)

  datatype Options = Options(reconnection: bool, maxAttempts: int, auth: bool)

  datatype Client = Client(
    ws: Option<nat>,
    connected: bool,
    manuallyClosed: bool,
    attempts: int,
    pending: seq<Frame>,
    sockets: seq<ReadyState>,
    timers: nat,
    sent: seq<Sent>)

  // ---- what each step does ----

  predicate CurrentOpen(c: Client) {
    c.ws.Some? && c.ws.value < |c.sockets| && c.sockets[c.ws.value].Opened?
  }

  /** `open()`: a new socket becomes the current one, whatever became of the previous one. */
  function WithNewSocket(c: Client): Client {
    c.(ws := Some(|c.sockets|), sockets := c.sockets + [Connecting])
  }

  function Flushed(socket: nat, frames: seq<Frame>): seq<Sent> {
    seq(|frames|, i requires 0 <= i < |frames| => Data(socket, frames[i]))
  }

  function ToClosing(s: ReadyState): ReadyState {
    if s.Closed? then Closed else Closing
  }

  datatype Event =
    | Emit(frame: Frame)
    | Connect
    | Disconnect
    | Open(socket: nat)
    | StartClosing(socket: nat)
    | Close(socket: nat)
    | Timer

  function Next(o: Options, c: Client, e: Event): Client {
    match e
    case Emit(frame) =>
      if CurrentOpen(c) then c.(sent := c.sent + [Data(c.ws.value, frame)]) else c.(pending := c.pending + [frame])
    case Connect =>
      var d := c.(manuallyClosed := false);
      if c.ws.None? || (c.ws.value < |c.sockets| && c.sockets[c.ws.value].Closed?) then WithNewSocket(d) else d
    case Disconnect =>
      c.(manuallyClosed := true, connected := false, ws := None,
         sockets := if c.ws.Some? && c.ws.value < |c.sockets|
                    then c.sockets[c.ws.value := ToClosing(c.sockets[c.ws.value])] else c.sockets)
    case Open(i) =>
      if i < |c.sockets| && c.sockets[i].Connecting? then
        c.(sockets := c.sockets[i := Opened], connected := true, pending := [], attempts := 0,
           sent := c.sent + Flushed(i, c.pending) + if o.auth then [Auth(i)] else [])
      else c
    case StartClosing(i) =>
      if i < |c.sockets| && c.sockets[i].Opened? then c.(sockets := c.sockets[i := Closing]) else c
    case Close(i) =>
      if i < |c.sockets| && !c.sockets[i].Closed? then
        var d := c.(sockets := c.sockets[i := Closed], connected := false);
        if c.manuallyClosed || !o.reconnection || c.attempts >= o.maxAttempts then d
        else d.(attempts := c.attempts + 1, timers := c.timers + 1)
      else c
    case Timer =>
      if c.timers == 0 then c else
        var d := c.(timers := c.timers - 1);
        if c.manuallyClosed then d else WithNewSocket(d)
  }

  // ---- the client ----

  class WebSocketClient {
    const options: Options
    var ws: Option<nat>
    var connected: bool
    var manuallyClosed: bool
    var reconnectAttempts: int
    var pending: seq<Frame>
    var sockets: seq<ReadyState>
    var timers: nat
    var sent: seq<Sent>

    ghost function State(): Client
      reads this
    {
      Client(ws, connected, manuallyClosed, reconnectAttempts, pending, sockets, timers, sent)
    }

    ghost predicate Valid()
      reads this
    {
      ws.Some? ==> ws.value < |sockets|
    }

    constructor (o: Options)
      ensures options == o && Valid() && State() == Start()
    {
      options := o;
      ws, connected, manuallyClosed, reconnectAttempts := None, false, false, 0;
      pending, sockets, timers, sent := [], [], 0, [];
      new;
      OpenSocket();
    }

    method OpenSocket()
      modifies this
      ensures Valid() && State() == WithNewSocket(old(State()))
    {
      sockets := sockets + [Connecting];
      ws := Some(|sockets| - 1);
    }

    method EmitFrame(frame: Frame)
      requires Valid()
      modifies this
      ensures Valid() && State() == Next(options, old(State()), Emit(frame))
    {
      if ws.None? || sockets[ws.value] != Opened {
        pending := pending + [frame];
        return;
      }
      sent := sent + [Data(ws.value, frame)];
    }

    method DisconnectClient()
      requires Valid()
      modifies this
      ensures Valid() && State() == Next(options, old(State()), Disconnect)
    {
      manuallyClosed := true;
      if ws.Some? {
        sockets := sockets[ws.value := ToClosing(sockets[ws.value])];
        ws := None;
      }
      connected := false;
    }

    method ConnectClient()
      requires Valid()
      modifies this
      ensures Valid() && State() == Next(options, old(State()), Connect)
    {
      manuallyClosed := false;
      if ws.None? || sockets[ws.value] == Closed {
        OpenSocket();
      }
    }

    /** `ws.onopen` of any socket that is connecting, the current one or not. */
    method OnOpen(i: nat)
      requires Valid() && i < |sockets| && sockets[i].Connecting?
      modifies this
      ensures Valid() && State() == Next(options, old(State()), Open(i))
    {
      sockets := sockets[i := Opened];
      connected := true;
      ghost var all := pending;
      while |pending| > 0
        invariant |pending| <= |all| && pending == all[|all| - |pending|..]
        invariant sent == old(sent) + Flushed(i, all[..|all| - |pending|])
        invariant ws == old(ws) && connected && manuallyClosed == old(manuallyClosed) && timers == old(timers)
        invariant sockets == old(sockets)[i := Opened] && reconnectAttempts == old(reconnectAttempts)
        decreases |pending|
      {
        var item := pending[0];
        pending := pending[1..];
        assert all[..|all| - |pending|] == all[..|all| - |pending| - 1] + [item];
        sent := sent + [Data(i, item)];
      }
      assert all[..|all|] == all;
      reconnectAttempts := 0;
      if options.auth {
        sent := sent + [Auth(i)];
      }
    }

    /** `ws.onclose` of any socket, the current one or not. */
    method OnClose(i: nat)
      requires Valid() && i < |sockets| && !sockets[i].Closed?
      modifies this
      ensures Valid() && State() == Next(options, old(State()), Close(i))
    {
      sockets := sockets[i := Closed];
      connected := false;
      if manuallyClosed {
        return;
      }
      if !options.reconnection {
        return;
      }
      if reconnectAttempts >= options.maxAttempts {
        return;
      }
      reconnectAttempts := reconnectAttempts + 1;
      timers := timers + 1;
    }

    method OnTimer()
      requires Valid() && timers > 0
      modifies this
      ensures Valid() && State() == Next(options, old(State()), Timer)
    {
      timers := timers - 1;
      if !manuallyClosed {
        OpenSocket();
      }
    }
  }

  // ---- runs ----

  function Start(): Client {
    WithNewSocket(Client(None, false, false, 0, [], [], 0, []))
  }

  function RunFrom(o: Options, c: Client, events: seq<Event>): Client {
    if events == [] then c else Next(o, RunFrom(o, c, events[..|events| - 1]), events[|events| - 1])
  }

  function Run(o: Options, events: seq<Event>): Client {
    RunFrom(o, Start(), events)
  }

  function Emitted(events: seq<Event>): seq<Frame> {
    if events == [] then [] else
      Emitted(events[..|events| - 1]) + if events[|events| - 1].Emit? then [events[|events| - 1].frame] else []
  }

  /** The emitted frames that were handed to some socket, in order. */
  function Frames(sent: seq<Sent>): seq<Frame> {
    if sent == [] then [] else
      Frames(sent[..|sent| - 1]) + if sent[|sent| - 1].Data? then [sent[|sent| - 1].frame] else []
  }

  lemma {:induction false} FramesConcat(a: seq<Sent>, b: seq<Sent>)
    ensures Frames(a + b) == Frames(a) + Frames(b)
  {
    if b == [] {
      assert a + b == a;
    } else {
      assert (a + b)[..|a + b| - 1] == a + b[..|b| - 1];
      FramesConcat(a, b[..|b| - 1]);
    }
  }

  lemma {:induction false} FlushedFrames(socket: nat, frames: seq<Frame>)
    ensures Frames(Flushed(socket, frames)) == frames
  {
    if frames != [] {
      FlushedFrames(socket, frames[..|frames| - 1]);
      assert Flushed(socket, frames)[..|frames| - 1] == Flushed(socket, frames[..|frames| - 1]);
    }
  }

  lemma OneFrame(s: Sent)
    ensures Frames([s]) == if s.Data? then [s.frame] else []
  {
    var all := [s];
    assert all[..0] == [];
  }

  ghost predicate Inv(o: Options, c: Client) {
    && (c.ws.Some? ==> c.ws.value < |c.sockets|)
    && (CurrentOpen(c) ==> c.pending == [])
    && (c.attempts == 0 || 0 < c.attempts <= o.maxAttempts)
    && (c.manuallyClosed ==> c.ws.None?)
  }

  lemma NextConserves(o: Options, c: Client, e: Event)
    requires Inv(o, c)
    ensures var d := Next(o, c, e);
      Inv(o, d) && Frames(d.sent) + d.pending == Frames(c.sent) + c.pending + if e.Emit? then [e.frame] else []
  {
    hide Frames, Flushed;
    match e
    case Emit(frame) =>
      if CurrentOpen(c) {
        OneFrame(Data(c.ws.value, frame));
        FramesConcat(c.sent, [Data(c.ws.value, frame)]);
      }
    case Open(i) =>
      var flushed := c.sent + Flushed(i, c.pending);
      assert flushed + [] == flushed;
      FlushedFrames(i, c.pending);
      FramesConcat(c.sent, Flushed(i, c.pending));
      OneFrame(Auth(i));
      FramesConcat(flushed, [Auth(i)]);
    case Connect =>
    case Disconnect =>
    case StartClosing(i) =>
    case Close(i) =>
    case Timer =>
  }

  /** CONSERVATION. In every run the frames handed to sockets, followed by those still waiting, are the
      emitted frames in the order of emission: none is lost, repeated or overtaken by the queue, even
      when a manual connect and a reconnect timer open two sockets. */
  lemma {:induction false} NothingLost(o: Options, events: seq<Event>)
    ensures var c := Run(o, events);
      Inv(o, c) && Frames(c.sent) + c.pending == Emitted(events)
  {
    if events != [] {
      var before := events[..|events| - 1];
      NothingLost(o, before);
      hide Next, Frames, Inv;
      NextConserves(o, Run(o, before), events[|events| - 1]);
    } else {
      assert Frames([]) == [];
    }
  }

  /** A socket that opens takes the whole queue with it. */
  lemma {:induction false} OpeningDrains(o: Options, events: seq<Event>, i: nat)
    requires var c := Run(o, events); i < |c.sockets| && c.sockets[i].Connecting?
    ensures var d := Run(o, events + [Open(i)]); d.pending == [] && Frames(d.sent) == Emitted(events)
  {
    var all := events + [Open(i)];
    assert all[..|all| - 1] == events && all[|all| - 1] == Open(i);
    NothingLost(o, all);
    assert Emitted(all) == Emitted(events);
  }

  /** After a disconnect and until the next connect no socket is opened, whatever timers are left. */
  lemma {:induction false} StaysDisconnected(o: Options, c: Client, events: seq<Event>)
    requires c.manuallyClosed && forall e | e in events :: !e.Connect?
    ensures var d := RunFrom(o, c, events); d.manuallyClosed && |d.sockets| == |c.sockets|
  {
    if events != [] {
      var before, e := events[..|events| - 1], events[|events| - 1];
      assert events == before + [e];
      StaysDisconnected(o, c, before);
      hide Next;
      NextStaysDisconnected(o, RunFrom(o, c, before), e);
    }
  }

  lemma {:induction false} NextStaysDisconnected(o: Options, c: Client, e: Event)
    requires c.manuallyClosed && !e.Connect?
    ensures var d := Next(o, c, e); d.manuallyClosed && |d.sockets| == |c.sockets|
  {
    hide Flushed;
  }

  lemma {:induction false} RunFour(o: Options, c: Client, e: Event, f: Event, g: Event, h: Event)
    ensures RunFrom(o, c, [e, f, g, h]) == Next(o, Next(o, Next(o, Next(o, c, e), f), g), h)
  {
    var all := [e, f, g, h];
    assert all[..3][..2] == all[..2] && all[..2][..1] == all[..1] && all[..1][..0] == [];
    hide Next;
    assert RunFrom(o, c, all[..0]) == c;
    assert RunFrom(o, c, all[..1]) == Next(o, c, e);
    assert RunFrom(o, c, all[..2]) == Next(o, Next(o, c, e), f);
    assert RunFrom(o, c, all[..3]) == Next(o, Next(o, Next(o, c, e), f), g);
  }

  // ---- the connected flag ----

  /** Event `k` opened a socket. */
  ghost predicate Opens(o: Options, events: seq<Event>, k: nat) {
    && k < |events| && events[k].Open?
    && var c := Run(o, events[..k]); events[k].socket < |c.sockets| && c.sockets[events[k].socket].Connecting?
  }

  /** Event `k` closed a socket. */
  ghost predicate Closes(o: Options, events: seq<Event>, k: nat) {
    && k < |events| && events[k].Close?
    && var c := Run(o, events[..k]); events[k].socket < |c.sockets| && !c.sockets[events[k].socket].Closed?
  }

  ghost predicate Breaks(o: Options, events: seq<Event>, k: nat) {
    Closes(o, events, k) || (k < |events| && events[k].Disconnect?)
  }

  lemma {:induction false} SamePast(o: Options, before: seq<Event>, e: Event, k: nat)
    requires k < |before|
    ensures Opens(o, before + [e], k) == Opens(o, before, k)
    ensures Closes(o, before + [e], k) == Closes(o, before, k)
    ensures Breaks(o, before + [e], k) == Breaks(o, before, k)
  {
    assert (before + [e])[..k] == before[..k] && (before + [e])[k] == before[k];
  }

  lemma {:induction false} FlagNext(o: Options, before: seq<Event>, e: Event)
    ensures var events := before + [e];
      Run(o, events).connected == (Opens(o, events, |before|) ||
          (Run(o, before).connected && !Breaks(o, events, |before|)))
  {
    var events := before + [e];
    assert events[..|events| - 1] == before && events[|before|] == e;
  }

  ghost predicate OpenStands(o: Options, events: seq<Event>, j: nat) {
    Opens(o, events, j) && forall k | j < k < |events| :: !Breaks(o, events, k)
  }

  /** The client counts as connected if and only if some socket opened and none was closed, nor the
      client disconnected, since. */
  lemma {:induction false} ConnectedExactly(o: Options, events: seq<Event>)
    ensures Run(o, events).connected <==> exists j :: OpenStands(o, events, j)
  {
    if events != [] {
      var before, e := events[..|events| - 1], events[|events| - 1];
      assert events == before + [e];
      ConnectedExactly(o, before);
      FlagNext(o, before, e);
      hide Run, Opens, Closes;
      forall j: nat | j < |before|
        ensures Opens(o, events, j) == Opens(o, before, j) && Breaks(o, events, j) == Breaks(o, before, j)
      {
        SamePast(o, before, e, j);
      }
      hide Breaks;
      forall j: nat | j < |before|
        ensures OpenStands(o, events, j) <==> OpenStands(o, before, j) && !Breaks(o, events, |before|)
      {
      }
      assert OpenStands(o, events, |before|) <==> Opens(o, events, |before|);
    }
  }

  ghost predicate CloseStands(o: Options, events: seq<Event>, k: nat) {
    Closes(o, events, k) && forall j | k < j < |events| :: !Opens(o, events, j)
  }

  lemma {:induction false} CurrentFlagNext(o: Options, before: seq<Event>, e: Event)
    requires var c := Run(o, before + [e]); CurrentOpen(c) && !c.connected && !Closes(o, before + [e], |before|)
    ensures var c := Run(o, before); CurrentOpen(c) && !c.connected && !Opens(o, before + [e], |before|)
  {
    var events := before + [e];
    assert events[..|events| - 1] == before && events[|before|] == e;
    NothingLost(o, before);
  }

  lemma {:induction false} WrongFlag(o: Options, events: seq<Event>)
    requires CurrentOpen(Run(o, events)) && !Run(o, events).connected
    ensures exists k :: CloseStands(o, events, k)
  {
    var before, e := events[..|events| - 1], events[|events| - 1];
    assert events == before + [e];
    if Closes(o, events, |before|) {
      assert CloseStands(o, events, |before|);
    } else {
      CurrentFlagNext(o, before, e);
      WrongFlag(o, before);
      var k :| CloseStands(o, before, k);
      hide Run, Opens, Closes;
      forall j: nat | j < |before|
        ensures Opens(o, events, j) == Opens(o, before, j) && Closes(o, events, j) == Closes(o, before, j)
      {
        SamePast(o, before, e, j);
      }
      assert CloseStands(o, events, k);
    }
  }

  /** Although its current socket is open, the client counts as disconnected if and only if some socket
      has closed and none has opened since. */
  lemma {:induction false} FlagWrongExactly(o: Options, events: seq<Event>)
    requires CurrentOpen(Run(o, events))
    ensures !Run(o, events).connected <==> exists k :: CloseStands(o, events, k)
  {
    ConnectedExactly(o, events);
    if !Run(o, events).connected {
      WrongFlag(o, events);
    } else {
      var j: nat :| OpenStands(o, events, j);
      assert !Closes(o, events, j);
      hide Run;
      forall k: nat ensures !CloseStands(o, events, k) {
        assert j < k < |events| ==> !Breaks(o, events, k);
      }
    }
  }

  /** A connect while a reconnect timer runs leaves two sockets; when the older one closes, the client
      counts as disconnected although its current socket is open. */
  lemma {:induction false} TwoSockets(o: Options)
    requires o.reconnection && o.maxAttempts >= 1
    ensures exists events :: var c := Run(o, events);
      |c.sockets| == 3 && c.sockets[1].Opened? && CurrentOpen(c) && c.ws == Some(2)
    ensures exists events :: var c := Run(o, events); CurrentOpen(c) && !c.connected
  {
    var first := [Close(0), Connect, Open(1), Timer];
    TwoOpen(o, first);
    var both, closed := first + [Open(2)], first + [Open(2)] + [Close(1)];
    hide Next, Run;
    RunNext(o, first, Open(2));
    RunNext(o, both, Close(1));
    SecondOpens(o, Run(o, first));
    FirstCloses(o, Run(o, both));
    assert closed == both + [Close(1)];
  }

  lemma {:induction false} RunNext(o: Options, events: seq<Event>, e: Event)
    ensures Run(o, events + [e]) == Next(o, Run(o, events), e)
  {
    assert (events + [e])[..|events|] == events;
  }

  lemma {:induction false} TwoOpen(o: Options, first: seq<Event>)
    requires o.reconnection && o.maxAttempts >= 1 && first == [Close(0), Connect, Open(1), Timer]
    ensures var c := Run(o, first); c.sockets == [Closed, Opened, Connecting] && c.ws == Some(2)
  {
    RunFour(o, Start(), Close(0), Connect, Open(1), Timer);
  }

  lemma {:induction false} SecondOpens(o: Options, c: Client)
    requires c.sockets == [Closed, Opened, Connecting] && c.ws == Some(2)
    ensures var d := Next(o, c, Open(2)); d.sockets == [Closed, Opened, Opened] && d.ws == Some(2) && CurrentOpen(d)
  {
    hide Flushed;
  }

  lemma {:induction false} FirstCloses(o: Options, c: Client)
    requires c.sockets == [Closed, Opened, Opened] && c.ws == Some(2)
    ensures var d := Next(o, c, Close(1)); CurrentOpen(d) && !d.connected
  {
  }

  // ---- where frames go ----

  function RunTo(o: Options, events: seq<Event>, k: int): Client
    requires 0 <= k <= |events|
  {
    Run(o, events[..k])
  }

  lemma {:induction false} RunStep(o: Options, events: seq<Event>, k: int)
    requires 0 <= k < |events|
    ensures RunTo(o, events, k + 1) == Next(o, RunTo(o, events, k), events[k])
  {
    hide Next;
    assert events[..k + 1][..k] == events[..k];
  }

  /** Call `i` was made by this step on a socket that is open after it: by an emit on the current one,
      which was open already, and otherwise on the one that opens. */
  predicate Hands(c: Client, e: Event, d: Client, i: int) {
    && |c.sent| <= i < |d.sent| && d.sent[i].socket < |d.sockets| && d.sockets[d.sent[i].socket].Opened?
    && match e
       case Emit(frame) =>
         c.ws == Some(d.sent[i].socket) && d.sockets == c.sockets && d.sent[i] == Data(c.ws.value, frame)
       case Open(j) => d.sent[i].socket == j && j < |c.sockets| && c.sockets[j].Connecting?
       case _ => false
  }

  lemma {:induction false} StepHands(o: Options, c: Client, e: Event, i: int)
    requires Inv(o, c)
    ensures var d := Next(o, c, e); c.sent <= d.sent && (|c.sent| <= i < |d.sent| ==> Hands(c, e, d, i))
  {
    if e.Open? {
      var flushed := Flushed(e.socket, c.pending);
      assert forall k | 0 <= k < |flushed| :: flushed[k] == Data(e.socket, c.pending[k]);
    }
  }

  /** OPEN SOCKETS ONLY. Everything that is ever sent was handed to a socket at a moment when it was open. */
  lemma {:induction false} SentWhileOpen(o: Options, events: seq<Event>, i: int)
    requires 0 <= i < |Run(o, events).sent|
    ensures exists k | 0 <= k < |events| ::
        Hands(RunTo(o, events, k), events[k], RunTo(o, events, k + 1), i)
        && RunTo(o, events, k + 1).sent[i] == Run(o, events).sent[i]
  {
    if events != [] {
      var n := |events| - 1;
      var before := events[..n];
      NothingLost(o, before);
      RunStep(o, events, n);
      assert events[..n + 1] == events;
      StepHands(o, Run(o, before), events[n], i);
      hide Run, Next, Inv, Hands;
      if i < |Run(o, before).sent| {
        SentWhileOpen(o, before, i);
        var k :| 0 <= k < |before| && Hands(RunTo(o, before, k), before[k], RunTo(o, before, k + 1), i)
          && RunTo(o, before, k + 1).sent[i] == Run(o, before).sent[i];
        SameRunTo(o, events, n, k);
        SameRunTo(o, events, n, k + 1);
        assert before[k] == events[k];
      } else {
        assert Hands(RunTo(o, events, n), events[n], RunTo(o, events, n + 1), i);
      }
    }
  }

  lemma {:induction false} SameRunTo(o: Options, events: seq<Event>, n: int, k: int)
    requires 0 <= k <= n <= |events|
    ensures RunTo(o, events[..n], k) == RunTo(o, events, k)
  {
    assert events[..n][..k] == events[..k];
  }

  /** An opening socket is sent the waiting frames in order and then, if there are any, the credentials. */
  lemma {:induction false} OpeningSends(o: Options, c: Client, socket: nat)
    requires socket < |c.sockets| && c.sockets[socket].Connecting?
    ensures var d := Next(o, c, Open(socket)); var n := |c.sent|;
      && d.sent[..n] == c.sent && |d.sent| == n + |c.pending| + (if o.auth then 1 else 0)
      && (forall i | 0 <= i < |c.pending| :: d.sent[n + i] == Data(socket, c.pending[i]))
      && (o.auth ==> d.sent[|d.sent| - 1] == Auth(socket))
  {
  }

  // ---- reconnecting ----

  /** Event `k` set a timer for another attempt. */
  ghost predicate Schedules(o: Options, events: seq<Event>, k: int) {
    0 <= k < |events| && RunTo(o, events, k + 1).timers > RunTo(o, events, k).timers
  }

  ghost function ScheduledSince(o: Options, events: seq<Event>, j: int): set<int> {
    set k | j <= k < |events| && Schedules(o, events, k)
  }

  /** The client is closed for good: no connect came after the disconnect `j`. */
  ghost predicate DisconnectStands(events: seq<Event>, j: int) {
    0 <= j < |events| && events[j].Disconnect? && forall k | j < k < |events| :: !events[k].Connect?
  }

  lemma {:induction false} ManuallyClosedExactly(o: Options, events: seq<Event>)
    ensures Run(o, events).manuallyClosed <==> exists j :: DisconnectStands(events, j)
  {
    if events != [] {
      var before, e := events[..|events| - 1], events[|events| - 1];
      assert events == before + [e];
      ManuallyClosedExactly(o, before);
      ManualNext(o, Run(o, before), e);
      hide Run, Next;
      forall j | j < |before| ensures DisconnectStands(events, j) <==> DisconnectStands(before, j) && !e.Connect? {
        assert forall k | 0 <= k < |before| :: events[k] == before[k];
      }
      assert DisconnectStands(events, |before|) <==> e.Disconnect?;
      if j :| DisconnectStands(before, j) && !e.Connect? {
        assert DisconnectStands(events, j);
      }
    }
  }

  lemma {:induction false} ManualNext(o: Options, c: Client, e: Event)
    ensures Next(o, c, e).manuallyClosed <==> e.Disconnect? || (c.manuallyClosed && !e.Connect?)
  {
    hide Flushed;
  }

  /** The attempts of the client are the timers set since a socket last opened. */
  lemma {:induction false} AttemptsExactly(o: Options, events: seq<Event>, j: nat)
    requires j <= |events| && (j == 0 || Opens(o, events, j - 1))
    requires forall k | j <= k < |events| :: !Opens(o, events, k)
    ensures Run(o, events).attempts == |ScheduledSince(o, events, j)|
    decreases |events|
  {
    if j == |events| {
      assert ScheduledSince(o, events, j) == {};
      if j > 0 {
        assert events[..j] == events;
      }
    } else {
      var before, e := events[..|events| - 1], events[|events| - 1];
      assert events == before + [e];
      forall k: nat | k < |before| ensures Opens(o, events, k) == Opens(o, before, k) {
        SamePast(o, before, e, k);
      }
      AttemptsExactly(o, before, j);
      AttemptsNext(o, before, e);
      ScheduledNext(o, before, e, j);
    }
  }

  lemma {:induction false} SchedulesPast(o: Options, events: seq<Event>, n: int, k: int)
    requires 0 <= k < n <= |events|
    ensures Schedules(o, events[..n], k) == Schedules(o, events, k)
  {
    SameRunTo(o, events, n, k);
    SameRunTo(o, events, n, k + 1);
    hide RunTo;
  }

  lemma {:induction false} ScheduledNext(o: Options, before: seq<Event>, e: Event, j: nat)
    requires j <= |before|
    ensures |ScheduledSince(o, before + [e], j)|
         == |ScheduledSince(o, before, j)| + if Schedules(o, before + [e], |before|) then 1 else 0
  {
    var events, n := before + [e], |before|;
    assert events[..n] == before;
    forall k | 0 <= k < n ensures Schedules(o, events, k) == Schedules(o, before, k) {
      SchedulesPast(o, events, n, k);
    }
    hide ScheduledSince, Schedules;
    LastScheduled(o, events, before, j);
  }

  lemma {:induction false} LastScheduled(o: Options, events: seq<Event>, before: seq<Event>, j: nat)
    requires j <= |before| && |events| == |before| + 1
    requires forall k | 0 <= k < |before| :: Schedules(o, events, k) == Schedules(o, before, k)
    ensures |ScheduledSince(o, events, j)|
         == |ScheduledSince(o, before, j)| + if Schedules(o, events, |before|) then 1 else 0
  {
    hide Schedules;
    var earlier := ScheduledSince(o, before, j);
    assert ScheduledSince(o, events, j)
        == if Schedules(o, events, |before|) then earlier + {|before|} else earlier;
  }

  lemma {:induction false} AttemptsNext(o: Options, before: seq<Event>, e: Event)
    requires !Opens(o, before + [e], |before|)
    ensures Run(o, before + [e]).attempts
         == Run(o, before).attempts + if Schedules(o, before + [e], |before|) then 1 else 0
  {
    var events := before + [e];
    assert events[..|before|] == before && events[..|before| + 1] == events && events[|before|] == e;
    hide Flushed;
  }

  /** RECONNECTING. A socket that closes sets a timer if and only if reconnection is on, no disconnect
      stands and fewer than the allowed timers were set since a socket last opened; nothing else does. */
  lemma {:induction false} SchedulesExactly(o: Options, events: seq<Event>, j: nat, e: Event)
    requires j <= |events| && (j == 0 || Opens(o, events, j - 1))
    requires forall k | j <= k < |events| :: !Opens(o, events, k)
    ensures Schedules(o, events + [e], |events|)
       <==> Closes(o, events + [e], |events|) && o.reconnection && (forall k :: !DisconnectStands(events, k))
            && |ScheduledSince(o, events, j)| < o.maxAttempts
  {
    AttemptsExactly(o, events, j);
    ManuallyClosedExactly(o, events);
    SchedulesNext(o, events, e);
    hide Run, Schedules, Closes;
  }

  lemma {:induction false} SchedulesNext(o: Options, before: seq<Event>, e: Event)
    ensures var c := Run(o, before);
      Schedules(o, before + [e], |before|)
      <==> Closes(o, before + [e], |before|) && o.reconnection && !c.manuallyClosed && c.attempts < o.maxAttempts
  {
    var events := before + [e];
    assert events[..|before|] == before && events[..|before| + 1] == events && events[|before|] == e;
    hide Flushed;
  }

  /** SOCKETS. One is created by a connect without a socket or with a closed one, and by a timer unless the
      client is closed for good; it is the current one. A disconnect closes the current socket and forgets
      it. No event changes the state of any other socket but the one it is about. */
  lemma {:induction false} SocketsExactly(o: Options, c: Client, e: Event, i: nat)
    requires Inv(o, c) && i < |c.sockets|
    ensures var d := Next(o, c, e);
      var creates := (e.Connect? && (c.ws == None || c.sockets[c.ws.value] == Closed))
                     || (e.Timer? && c.timers > 0 && !c.manuallyClosed);
      && |d.sockets| == |c.sockets| + (if creates then 1 else 0)
      && (creates ==> d.ws == Some(|c.sockets|) && d.sockets[|c.sockets|] == Connecting)
      && (e.Timer? && c.timers > 0 ==> d.timers == c.timers - 1)
      && (e.Disconnect? ==> d.ws == None && (c.ws == Some(i) ==> d.sockets[i] == Closing || d.sockets[i] == Closed))
      && (d.sockets[i] != c.sockets[i] ==>
            e == Open(i) || e == StartClosing(i) || e == Close(i) || (e.Disconnect? && c.ws == Some(i)))
      && (e == Close(i) ==> d.sockets[i] == Closed) && (c.sockets[i] == Closed ==> d.sockets[i] == Closed)
  {
    hide Flushed;
  }
}
