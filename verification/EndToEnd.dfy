/** One bridge and one relay connection joined by two FIFO channels that may be cut at any moment. In
    either direction the bytes that come out are at all times a prefix of the bytes that went in. */
module EndToEnd {
  import opened Wrappers
  import opened Bytes
  import opened Tokens
  import opened TokenRegistry
  import opened Runs
  import B = Bridge
  import opened Relay

  datatype UpFrame = AuthFrame(token: string) | UpData(data: Chunk)

  datatype Net = Net(
    bridge: B.Bridge,
    up: seq<UpFrame>, upCut: bool,
    down: seq<B.Reply>, downCut: bool,
    relay: Socket, targetDestroyed: bool, runs: map<nat, Option<Run>>,
    records: Records, slots: Slots,
    localRead: Chunk, targetWritten: Chunk, targetRead: Chunk, localWritten: Chunk)

  ghost predicate Initial(n: Net) {
    && n.bridge == B.NEW_BRIDGE && n.relay == NEW_SOCKET && !n.targetDestroyed && n.runs == map[]
    && n.up == [] && n.down == []
    && n.localRead == [] && n.targetWritten == [] && n.targetRead == [] && n.localWritten == []
  }

  /** `BridgeWsClosing`: the bridge's WebSocket starts to close on its own, with its handlers still to run and
      the local socket still open. */
  datatype Action =
    | BridgeOpen(token: string)
    | LocalData(data: Chunk)
    | DeliverUp(id: nat, tooLarge: bool, now: int)
    | TokenReady(id: nat, now: int)
    | ConnectReady(id: nat, connected: Option<nat>)
    | TargetData(data: Chunk)
    | DeliverDown
    | BridgeWsClosing
    | BridgeClose
    | BridgeWsClosed
    | RelayTimeout(reason: CloseReason)
    | RelayWsClosed
    | TargetClosed
    | CutUp
    | CutDown
    | Others(records: Records, slots: Slots)

  function Wrap(chunks: seq<Chunk>): seq<UpFrame> {
    seq(|chunks|, i requires 0 <= i < |chunks| => UpData(chunks[i]))
  }

  function SendUp(n: Net, frames: seq<UpFrame>): seq<UpFrame> {
    if n.upCut then n.up else n.up + frames
  }

  function SendDown(n: Net, r: B.Reply): seq<B.Reply> {
    if n.downCut || !n.relay.ws.Open? then n.down else n.down + [r]
  }

  /** The relay's handler on the frame at the head of the upward channel. */
  function RelayReceives(cfg: Config, n: Net, id: nat, f: Frame, now: int): Net {
    if n.relay.authed then
      var (c, written) := Forward(n.relay, f, n.targetDestroyed);
      n.(relay := c, targetWritten := n.targetWritten + (if written.Some? then written.value else []))
    else
      var (records, c, run) := BeginAuth(cfg, n.records, n.relay, f, now);
      n.(records := records, relay := c, runs := if run.Some? then n.runs[id := run] else n.runs)
  }

  function Classify(u: UpFrame, tooLarge: bool): Frame {
    match u
    case AuthFrame(token) => if tooLarge then TooLarge else Auth(Some(token))
    case UpData(data) => Binary(data)
  }

  function Waiting(n: Net, id: nat): bool {
    id in n.runs && n.runs[id].Some?
  }

  function Step(cfg: Config, n: Net, a: Action): Net {
    match a
    case BridgeOpen(token) =>
      if !n.bridge.ws.Connecting? then n
      else n.(bridge := n.bridge.(ws := B.Open), up := SendUp(n, [AuthFrame(token)]))
    case LocalData(data) =>
      if n.bridge.tcpDestroyed then n
      else
        var (b, out) := B.OnLocalData(n.bridge, data);
        n.(bridge := b, up := SendUp(n, Wrap(out)), localRead := n.localRead + data)
    case DeliverUp(id, tooLarge, now) =>
      if n.up == [] || n.relay.closed || id in n.runs then n
      else RelayReceives(cfg, n.(up := n.up[1..]), id, Classify(n.up[0], tooLarge), now)
    case TokenReady(id, now) =>
      if !Waiting(n, id) || !n.runs[id].value.AwaitingToken? then n
      else
        var (slots, c, run) := ResumeToken(cfg, n.slots, n.relay, n.runs[id].value.resolution, now);
        n.(slots := slots, relay := c, runs := n.runs[id := run])
    case ConnectReady(id, connected) =>
      if !Waiting(n, id) || !n.runs[id].value.AwaitingConnect? then n
      else
        var (slots, c) := ResumeConnect(n.slots, n.relay, connected);
        n.(slots := slots, relay := c, runs := n.runs[id := None],
           down := if connected.Some? then SendDown(n, B.OkText) else n.down)
    case TargetData(data) =>
      if n.relay.tcp.None? || n.targetDestroyed then n
      else n.(targetRead := n.targetRead + data, down := SendDown(n, B.Payload(data)))
    case DeliverDown =>
      if n.down == [] || n.bridge.ws.Closed? then n
      else
        var (b, out, bytes) := B.OnReply(n.bridge, n.down[0]);
        n.(bridge := b, up := SendUp(n, Wrap(out)), down := n.down[1..],
           localWritten := n.localWritten + (if bytes.Some? then bytes.value else []))
    case BridgeWsClosing =>
      if n.bridge.ws.Open? || n.bridge.ws.Connecting? then n.(bridge := n.bridge.(ws := B.Closing)) else n
    case BridgeClose => n.(bridge := B.CloseBoth(n.bridge))
    case BridgeWsClosed => n.(bridge := B.CloseBoth(n.bridge).(ws := B.Closed))
    case RelayTimeout(reason) => n.(relay := Shut(n.relay, reason))
    case RelayWsClosed =>
      var (slots, c) := OnClose(n.slots, n.relay);
      n.(slots := slots, relay := c, targetDestroyed := n.targetDestroyed || (!n.relay.closed && n.relay.tcp.Some?))
    case TargetClosed => n.(targetDestroyed := n.targetDestroyed || n.relay.tcp.Some?)
    case CutUp => n.(upCut := true, up := [])
    case CutDown => n.(downCut := true, down := [])
    case Others(records, slots) => n.(records := records, slots := slots)
  }

  ghost function Joined(cfg: Config): Machine<Net, Action, ()> {
    (n: Net, a: Action, _: nat) => (Step(cfg, n, a), ())
  }

  ghost function After(cfg: Config, n: Net, actions: seq<Action>): Net {
    StateAfter(Joined(cfg), n, actions)
  }

  // ------------------------------------------------------------------ the bytes in flight

  function Concat(chunks: seq<Chunk>): Chunk {
    if chunks == [] then [] else chunks[0] + Concat(chunks[1..])
  }

  function UpPart(f: UpFrame): Chunk {
    if f.UpData? then f.data else []
  }

  function UpBytes(frames: seq<UpFrame>): Chunk {
    if frames == [] then []
    else UpPart(frames[0]) + UpBytes(frames[1..])
  }

  function DownPart(r: B.Reply): Chunk {
    if r.Payload? then r.data else []
  }

  function DownBytes(replies: seq<B.Reply>): Chunk {
    if replies == [] then []
    else DownPart(replies[0]) + DownBytes(replies[1..])
  }

  lemma Assoc(a: Chunk, b: Chunk, c: Chunk)
    ensures a + (b + c) == (a + b) + c
  {
  }

  lemma {:induction false} ConcatAppend(a: seq<Chunk>, b: seq<Chunk>)
    ensures Concat(a + b) == Concat(a) + Concat(b)
  {
    if a == [] {
      assert a + b == b;
    } else {
      var ab := a + b;
      assert ab[0] == a[0] && ab[1..] == a[1..] + b;
      ConcatAppend(a[1..], b);
      Assoc(a[0], Concat(a[1..]), Concat(b));
    }
  }

  lemma {:induction false} UpAppend(a: seq<UpFrame>, b: seq<UpFrame>)
    ensures UpBytes(a + b) == UpBytes(a) + UpBytes(b)
  {
    if a == [] {
      assert a + b == b;
    } else {
      var ab := a + b;
      assert ab[0] == a[0] && ab[1..] == a[1..] + b;
      UpAppend(a[1..], b);
      Assoc(UpPart(a[0]), UpBytes(a[1..]), UpBytes(b));
    }
  }

  lemma {:induction false} DownAppend(a: seq<B.Reply>, b: seq<B.Reply>)
    ensures DownBytes(a + b) == DownBytes(a) + DownBytes(b)
  {
    if a == [] {
      assert a + b == b;
    } else {
      var ab := a + b;
      assert ab[0] == a[0] && ab[1..] == a[1..] + b;
      DownAppend(a[1..], b);
      Assoc(DownPart(a[0]), DownBytes(a[1..]), DownBytes(b));
    }
  }

  lemma {:induction false} WrapBytes(chunks: seq<Chunk>)
    ensures UpBytes(Wrap(chunks)) == Concat(chunks)
  {
    if chunks != [] {
      WrapBytes(chunks[1..]);
      assert Wrap(chunks)[1..] == Wrap(chunks[1..]);
    }
  }

  // ------------------------------------------------------------------ the handshake

  predicate HasUpData(frames: seq<UpFrame>) {
    exists f <- frames :: f.UpData?
  }

  function AuthFrames(frames: seq<UpFrame>): nat {
    if frames == [] then 0 else (if frames[0].AuthFrame? then 1 else 0) + AuthFrames(frames[1..])
  }

  lemma {:induction false} AuthFramesAppend(a: seq<UpFrame>, b: seq<UpFrame>)
    ensures AuthFrames(a + b) == AuthFrames(a) + AuthFrames(b)
  {
    if a == [] {
      assert a + b == b;
    } else {
      AuthFramesAppend(a[1..], b);
      assert (a + b)[1..] == a[1..] + b;
    }
  }

  lemma {:induction false} WrapHasNoAuth(chunks: seq<Chunk>)
    ensures AuthFrames(Wrap(chunks)) == 0
  {
    if chunks != [] {
      WrapHasNoAuth(chunks[1..]);
      assert Wrap(chunks)[1..] == Wrap(chunks[1..]);
    }
  }

  /** The bridge authenticates once; data flows up only once the relay has a target socket, and down
      only from then on. */
  ghost predicate Handshake(n: Net) {
    && (n.upCut ==> n.up == []) && (n.downCut ==> n.down == [])
    && (n.relay.authed <==> n.relay.tcp.Some?)
    && AuthFrames(n.up) + |n.runs| <= 1
    && (n.relay.authed ==> n.runs != map[] && forall id <- n.runs :: n.runs[id].None?)
    && (n.bridge.ws.Connecting? ==> n.up == [] && n.runs == map[])
    && (n.bridge.authed ==> n.relay.authed && n.bridge.pending == [])
    && (HasUpData(n.up) ==> n.relay.authed)
    && (n.down != [] ==> n.relay.authed)
    && (n.bridge.closed ==> n.bridge.tcpDestroyed)
    && (!n.relay.authed ==> n.targetWritten == n.targetRead == n.localWritten == [])
  }

  lemma SingleRun(runs: map<nat, Option<Run>>, id: nat)
    requires |runs| <= 1 && id in runs
    ensures runs.Keys == {id}
  {
    assert runs.Keys == {id} + (runs.Keys - {id});
    assert |runs.Keys| == 1 + |runs.Keys - {id}|;
  }

  lemma FirstRun(runs: map<nat, Option<Run>>, id: nat, run: Option<Run>)
    requires |runs| == 0
    ensures |runs[id := run]| == 1
  {
    assert runs == map[];
  }

  lemma ReceiveKeepsHandshake(cfg: Config, n: Net, id: nat, tooLarge: bool, now: int)
    requires Handshake(n) && n.up != [] && id !in n.runs
    ensures Handshake(RelayReceives(cfg, n.(up := n.up[1..]), id, Classify(n.up[0], tooLarge), now))
  {
    var f := Classify(n.up[0], tooLarge);
    assert HasUpData(n.up[1..]) ==> HasUpData(n.up);
    if n.up[0].UpData? {
      assert HasUpData(n.up);
    } else if !n.relay.authed && BeginAuth(cfg, n.records, n.relay, f, now).2.Some? {
      assert |n.runs| == 0;
      FirstRun(n.runs, id, BeginAuth(cfg, n.records, n.relay, f, now).2);
    }
  }

  lemma SendKeepsHandshake(n: Net, chunks: seq<Chunk>)
    requires Handshake(n) && (chunks != [] ==> n.relay.authed && !n.bridge.ws.Connecting?)
    ensures Handshake(n.(up := SendUp(n, Wrap(chunks))))
  {
    AuthFramesAppend(n.up, Wrap(chunks));
    WrapHasNoAuth(chunks);
    if chunks == [] {
      assert SendUp(n, Wrap(chunks)) == n.up;
    }
  }

  lemma ResumeTokenFrame(cfg: Config, slots: Slots, c: Socket, resolution: Resolution, now: int)
    ensures var c' := ResumeToken(cfg, slots, c, resolution, now).1;
      c'.authed == c.authed && c'.tcp == c.tcp && c'.closed == c.closed && (c'.ws == c.ws || c'.ws.Closing?)
  {
  }

  /** A run resumes: the socket authenticates only when the run is over. */
  lemma ResumedHandshake(n: Net, id: nat, run: Option<Run>, c: Socket, down: seq<B.Reply>, slots: Slots)
    requires Handshake(n) && Waiting(n, id)
    requires c.authed <==> c.tcp.Some?
    requires c.authed ==> run.None?
    requires down == n.down || (c.authed && !n.downCut)
    ensures Handshake(n.(slots := slots, relay := c, runs := n.runs[id := run], down := down))
  {
    SingleRun(n.runs, id);
    assert n.runs[id := run].Keys == n.runs.Keys;
    assert |n.runs[id := run]| == |n.runs|;
    assert !n.relay.authed;
  }

  lemma ResumeKeepsHandshake(cfg: Config, n: Net, a: Action)
    requires Handshake(n) && (a.TokenReady? || a.ConnectReady?)
    ensures Handshake(Step(cfg, n, a))
  {
    if Waiting(n, a.id) {
      assert !n.relay.authed;
      if a.TokenReady? && n.runs[a.id].value.AwaitingToken? {
        var resolution := n.runs[a.id].value.resolution;
        var (slots, c, run) := ResumeToken(cfg, n.slots, n.relay, resolution, a.now);
        ResumeTokenFrame(cfg, n.slots, n.relay, resolution, a.now);
        ResumedHandshake(n, a.id, run, c, n.down, slots);
      } else if a.ConnectReady? && n.runs[a.id].value.AwaitingConnect? {
        var (slots, c) := ResumeConnect(n.slots, n.relay, a.connected);
        ResumedHandshake(n, a.id, None, c, if a.connected.Some? then SendDown(n, B.OkText) else n.down, slots);
      }
    }
  }

  lemma ReplyKeepsHandshake(n: Net)
    requires Handshake(n) && n.down != [] && !n.bridge.ws.Closed?
    ensures var (b, out, bytes) := B.OnReply(n.bridge, n.down[0]);
      Handshake(n.(bridge := b, up := SendUp(n, Wrap(out)), down := n.down[1..],
                   localWritten := n.localWritten + (if bytes.Some? then bytes.value else [])))
  {
    var (b, out, bytes) := B.OnReply(n.bridge, n.down[0]);
    var mid := n.(bridge := b, down := n.down[1..],
                  localWritten := n.localWritten + (if bytes.Some? then bytes.value else []));
    SendKeepsHandshake(mid, out);
  }

  lemma OpenKeepsHandshake(n: Net, token: string)
    requires Handshake(n) && n.bridge.ws.Connecting?
    ensures Handshake(n.(bridge := n.bridge.(ws := B.Open), up := SendUp(n, [AuthFrame(token)])))
  {
    assert n.up + [AuthFrame(token)] == [AuthFrame(token)];
    assert AuthFrames([AuthFrame(token)]) == 1;
  }

  lemma LocalDataKeepsHandshake(n: Net, data: Chunk)
    requires Handshake(n) && !n.bridge.tcpDestroyed
    ensures var (b, out) := B.OnLocalData(n.bridge, data);
      Handshake(n.(bridge := b, up := SendUp(n, Wrap(out)), localRead := n.localRead + data))
  {
    var (b, out) := B.OnLocalData(n.bridge, data);
    SendKeepsHandshake(n.(bridge := b, localRead := n.localRead + data), out);
  }

  /** A socket or a timer closes, a channel is cut, another connection moves, or the target sends. */
  predicate IsOutside(a: Action) {
    || a.BridgeWsClosing? || a.BridgeClose? || a.BridgeWsClosed? || a.RelayTimeout? || a.RelayWsClosed?
    || a.TargetClosed? || a.TargetData? || a.CutUp? || a.CutDown? || a.Others?
  }

  predicate IsRelaySide(a: Action) {
    a.RelayTimeout? || a.RelayWsClosed? || a.TargetClosed? || a.TargetData? || a.Others?
  }

  lemma RelaySideKeepsHandshake(cfg: Config, n: Net, a: Action)
    requires Handshake(n) && IsRelaySide(a)
    ensures Handshake(Step(cfg, n, a))
  {
  }

  lemma BridgeSideKeepsHandshake(cfg: Config, n: Net, a: Action)
    requires Handshake(n) && IsOutside(a) && !IsRelaySide(a)
    ensures Handshake(Step(cfg, n, a))
  {
  }

  lemma OutsideKeepsHandshake(cfg: Config, n: Net, a: Action)
    requires Handshake(n) && IsOutside(a)
    ensures Handshake(Step(cfg, n, a))
  {
    if IsRelaySide(a) {
      RelaySideKeepsHandshake(cfg, n, a);
    } else {
      BridgeSideKeepsHandshake(cfg, n, a);
    }
  }

  lemma HandshakeStep(cfg: Config, n: Net, a: Action)
    requires Handshake(n)
    ensures Handshake(Step(cfg, n, a))
  {
    if IsOutside(a) {
      OutsideKeepsHandshake(cfg, n, a);
    } else if a.TokenReady? || a.ConnectReady? {
      ResumeKeepsHandshake(cfg, n, a);
    } else if Step(cfg, n, a) != n {
      InnerKeepsHandshake(cfg, n, a);
    }
  }

  lemma InnerKeepsHandshake(cfg: Config, n: Net, a: Action)
    requires Handshake(n) && Step(cfg, n, a) != n
    requires a.BridgeOpen? || a.LocalData? || a.DeliverUp? || a.DeliverDown?
    ensures Handshake(Step(cfg, n, a))
  {
    match a
    case BridgeOpen(token) => OpenKeepsHandshake(n, token);
    case LocalData(data) => LocalDataKeepsHandshake(n, data);
    case DeliverUp(id, tooLarge, now) => ReceiveKeepsHandshake(cfg, n, id, tooLarge, now);
    case DeliverDown => ReplyKeepsHandshake(n);
  }

  // ------------------------------------------------------------------ upward bytes

  predicate UpAlive(n: Net) {
    !n.upCut && !n.relay.closed && !n.targetDestroyed
  }

  /** What has been written is a prefix of what was read; so is that with the bytes in flight while they
      can still be delivered; and nothing at all is missing while the bridge can still send. */
  ghost predicate UpFlow(n: Net) {
    && n.targetWritten <= n.localRead
    && (UpAlive(n) ==> n.targetWritten + UpBytes(n.up) <= n.localRead)
    && (UpAlive(n) && (n.bridge.ws.Open? || n.bridge.ws.Connecting?) ==>
          n.targetWritten + UpBytes(n.up) + Concat(n.bridge.pending) == n.localRead)
  }

  lemma OneChunk(data: Chunk)
    ensures Concat([data]) == data
  {
    assert [data][1..] == [] && data + [] == data;
  }

  /** Bytes read before acceptance are kept. */
  lemma UpFlowKeeps(n: Net, data: Chunk)
    requires UpFlow(n)
    ensures UpFlow(n.(bridge := n.bridge.(pending := n.bridge.pending + [data]), localRead := n.localRead + data))
  {
    ConcatAppend(n.bridge.pending, [data]);
    OneChunk(data);
    Assoc(n.targetWritten + UpBytes(n.up), Concat(n.bridge.pending), data);
  }

  lemma SentUp(n: Net, data: Chunk)
    ensures UpBytes(SendUp(n, Wrap([data]))) == UpBytes(n.up) + (if n.upCut then [] else data)
  {
    UpAppend(n.up, Wrap([data]));
    WrapBytes([data]);
    OneChunk(data);
  }

  /** `a` written and `b` in flight make up `c`; then `data` is read and sent. */
  lemma ReadAndSent(a: Chunk, b: Chunk, c: Chunk, data: Chunk)
    requires a + b == c
    ensures a + (b + data) == c + data
  {
  }

  lemma StillPrefix(a: Chunk, c: Chunk, data: Chunk)
    requires a <= c
    ensures a <= c + data
  {
  }

  /** Bytes read after acceptance go out at once while the WebSocket is open. */
  lemma UpFlowSends(n: Net, data: Chunk)
    requires UpFlow(n) && n.bridge.pending == [] && n.bridge.ws.Open?
    ensures UpFlow(n.(up := SendUp(n, Wrap([data])), localRead := n.localRead + data))
  {
    var a, b, c := n.targetWritten, UpBytes(n.up), n.localRead;
    StillPrefix(a, c, data);
    if UpAlive(n) {
      SentUp(n, data);
      assert a + b + [] == a + b;
      ReadAndSent(a, b, c, data);
      assert a + (b + data) + [] == a + (b + data);
    }
  }

  lemma UpFlowLocalData(n: Net, data: Chunk)
    requires UpFlow(n) && (n.bridge.authed ==> n.bridge.pending == [] && !n.bridge.ws.Connecting?)
    ensures var (b, out) := B.OnLocalData(n.bridge, data);
      UpFlow(n.(bridge := b, up := SendUp(n, Wrap(out)), localRead := n.localRead + data))
  {
    assert n.up + Wrap([]) == n.up;
    if !n.bridge.authed {
      UpFlowKeeps(n, data);
    } else if n.bridge.ws.Open? {
      UpFlowSends(n, data);
    }
  }

  lemma UpFlowReceive(cfg: Config, n: Net, id: nat, tooLarge: bool, now: int)
    requires Handshake(n) && UpFlow(n) && n.up != [] && !n.relay.closed
    ensures UpFlow(RelayReceives(cfg, n.(up := n.up[1..]), id, Classify(n.up[0], tooLarge), now))
  {
    var f, rest := n.up[0], n.up[1..];
    if f.UpData? {
      assert HasUpData(n.up);
      assert UpBytes(n.up) == f.data + UpBytes(rest);
      assert n.targetWritten + f.data + UpBytes(rest) == n.targetWritten + UpBytes(n.up);
    } else {
      assert UpBytes(n.up) == UpBytes(rest);
    }
  }

  lemma UpFlowReply(n: Net)
    requires Handshake(n) && UpFlow(n) && n.down != []
    ensures var (b, out, _) := B.OnReply(n.bridge, n.down[0]);
      UpFlow(n.(bridge := b, up := SendUp(n, Wrap(out))))
  {
    var out := B.OnReply(n.bridge, n.down[0]).1;
    var sent := UpBytes(n.up);
    UpAppend(n.up, Wrap(out));
    WrapBytes(out);
    assert Concat([]) == [] && sent + [] == sent;
    Assoc(n.targetWritten, sent, Concat(out));
  }

  /** Changes that neither carry bytes up nor reopen anything. */
  lemma UpFlowFrame(n: Net, n': Net)
    requires UpFlow(n)
    requires n'.targetWritten == n.targetWritten && n'.localRead == n.localRead && n'.bridge.pending == n.bridge.pending
    requires n'.up == n.up || n'.upCut
    requires UpAlive(n') ==> UpAlive(n)
    requires n'.bridge.ws.Open? || n'.bridge.ws.Connecting? ==> n.bridge.ws.Open? || n.bridge.ws.Connecting?
    ensures UpFlow(n')
  {
  }

  lemma UpFlowOpen(n: Net, token: string)
    requires UpFlow(n) && n.bridge.ws.Connecting?
    ensures UpFlow(n.(bridge := n.bridge.(ws := B.Open), up := SendUp(n, [AuthFrame(token)])))
  {
    var frames := [AuthFrame(token)];
    assert frames[1..] == [] && UpBytes(frames) == [];
    UpAppend(n.up, frames);
    assert UpBytes(n.up) + [] == UpBytes(n.up);
  }

  lemma UpFlowOutside(cfg: Config, n: Net, a: Action)
    requires UpFlow(n) && IsOutside(a)
    ensures UpFlow(Step(cfg, n, a))
  {
    UpFlowFrame(n, Step(cfg, n, a));
  }

  lemma UpFlowResume(cfg: Config, n: Net, a: Action)
    requires UpFlow(n) && (a.TokenReady? || a.ConnectReady?)
    ensures UpFlow(Step(cfg, n, a))
  {
    if Waiting(n, a.id) && a.TokenReady? && n.runs[a.id].value.AwaitingToken? {
      ResumeTokenFrame(cfg, n.slots, n.relay, n.runs[a.id].value.resolution, a.now);
    }
    UpFlowFrame(n, Step(cfg, n, a));
  }

  lemma UpFlowStep(cfg: Config, n: Net, a: Action)
    requires Handshake(n) && UpFlow(n)
    ensures UpFlow(Step(cfg, n, a))
  {
    if IsOutside(a) {
      UpFlowOutside(cfg, n, a);
    } else if a.TokenReady? || a.ConnectReady? {
      UpFlowResume(cfg, n, a);
    } else if Step(cfg, n, a) != n {
      UpFlowInner(cfg, n, a);
    }
  }

  lemma UpFlowInner(cfg: Config, n: Net, a: Action)
    requires Handshake(n) && UpFlow(n) && Step(cfg, n, a) != n
    requires a.BridgeOpen? || a.LocalData? || a.DeliverUp? || a.DeliverDown?
    ensures UpFlow(Step(cfg, n, a))
  {
    match a
    case BridgeOpen(token) => UpFlowOpen(n, token);
    case LocalData(data) => UpFlowLocalData(n, data);
    case DeliverUp(id, tooLarge, now) => UpFlowReceive(cfg, n, id, tooLarge, now);
    case DeliverDown => UpFlowReply(n);
  }

  // ------------------------------------------------------------------ downward bytes

  predicate DownAlive(n: Net) {
    !n.downCut && !n.bridge.ws.Closed? && !n.bridge.tcpDestroyed
  }

  ghost predicate DownFlow(n: Net) {
    && n.localWritten <= n.targetRead
    && (DownAlive(n) ==> n.localWritten + DownBytes(n.down) <= n.targetRead)
    && (DownAlive(n) && n.relay.ws.Open? ==> n.localWritten + DownBytes(n.down) == n.targetRead)
  }

  lemma DownFlowReply(n: Net)
    requires Handshake(n) && DownFlow(n) && n.down != [] && !n.bridge.ws.Closed?
    ensures var (b, out, bytes) := B.OnReply(n.bridge, n.down[0]);
      DownFlow(n.(bridge := b, down := n.down[1..],
                  localWritten := n.localWritten + (if bytes.Some? then bytes.value else [])))
  {
    var r, rest := n.down[0], n.down[1..];
    assert DownBytes(n.down) == (if r.Payload? then r.data else []) + DownBytes(rest);
    if r.Payload? {
      assert n.localWritten + r.data + DownBytes(rest) == n.localWritten + DownBytes(n.down);
    }
  }

  lemma PrefixExtends(a: Chunk, b: Chunk, c: Chunk)
    requires a <= b
    ensures a <= b + c && (a == b ==> a + c == b + c)
  {
  }

  lemma SentDown(n: Net, r: B.Reply)
    ensures DownBytes(SendDown(n, r)) ==
      DownBytes(n.down) + (if n.downCut || !n.relay.ws.Open? then [] else DownPart(r))
  {
    DownAppend(n.down, [r]);
    assert DownBytes([r]) == DownPart(r) + DownBytes([]) == DownPart(r);
  }

  /** The relay reads bytes from the target, or none, and sends one frame carrying them. */
  lemma DownFlowSend(n: Net, r: B.Reply)
    requires DownFlow(n)
    ensures DownFlow(n.(targetRead := n.targetRead + DownPart(r), down := SendDown(n, r)))
  {
    SentDown(n, r);
    assert n.targetRead <= n.targetRead + DownPart(r);
    Assoc(n.localWritten, DownBytes(n.down), DownPart(r));
    if DownAlive(n) {
      PrefixExtends(n.localWritten + DownBytes(n.down), n.targetRead, DownPart(r));
    }
  }

  /** Changes that neither carry bytes down nor reopen anything. */
  lemma DownFlowFrame(n: Net, n': Net)
    requires DownFlow(n)
    requires n'.localWritten == n.localWritten && n'.targetRead == n.targetRead
    requires n'.down == n.down || n'.downCut
    requires DownAlive(n') ==> DownAlive(n)
    requires n'.relay.ws.Open? ==> n.relay.ws.Open?
    ensures DownFlow(n')
  {
  }

  lemma BeginAuthFrame(cfg: Config, records: Records, c: Socket, f: Frame, now: int)
    ensures var c' := BeginAuth(cfg, records, c, f, now).1; c'.ws.Open? ==> c.ws.Open?
  {
  }

  lemma ForwardFrame(c: Socket, f: Frame, destroyed: bool)
    ensures var c' := Forward(c, f, destroyed).0; c'.ws.Open? ==> c.ws.Open?
  {
  }

  lemma ReceiveFrame(cfg: Config, n: Net, id: nat, f: Frame, now: int)
    ensures var m := RelayReceives(cfg, n, id, f, now);
      && m.bridge == n.bridge && m.down == n.down && m.downCut == n.downCut
      && m.localWritten == n.localWritten && m.targetRead == n.targetRead
      && (m.relay.ws.Open? ==> n.relay.ws.Open?)
  {
    if n.relay.authed {
      ForwardFrame(n.relay, f, n.targetDestroyed);
    } else {
      BeginAuthFrame(cfg, n.records, n.relay, f, now);
    }
  }

  lemma DownFlowUpward(cfg: Config, n: Net, a: Action)
    requires DownFlow(n) && (a.BridgeOpen? || a.LocalData? || a.DeliverUp? || a.TokenReady?)
    ensures DownFlow(Step(cfg, n, a))
  {
    var n' := Step(cfg, n, a);
    if a.BridgeOpen? {
      DownFlowFrame(n, n');
    } else if a.LocalData? {
      DownFlowFrame(n, n');
    } else if a.DeliverUp? {
      if n' != n {
        ReceiveFrame(cfg, n.(up := n.up[1..]), a.id, Classify(n.up[0], a.tooLarge), a.now);
        DownFlowFrame(n, n');
      }
    } else if Waiting(n, a.id) && n.runs[a.id].value.AwaitingToken? {
      ResumeTokenFrame(cfg, n.slots, n.relay, n.runs[a.id].value.resolution, a.now);
      DownFlowFrame(n, n');
    }
  }

  lemma DownFlowConnect(cfg: Config, n: Net, a: Action)
    requires DownFlow(n) && a.ConnectReady?
    ensures DownFlow(Step(cfg, n, a))
  {
    if Waiting(n, a.id) && n.runs[a.id].value.AwaitingConnect? && a.connected.Some? {
      DownFlowSend(n, B.OkText);
      DownFlowFrame(n.(targetRead := n.targetRead + [], down := SendDown(n, B.OkText)), Step(cfg, n, a));
    } else {
      DownFlowFrame(n, Step(cfg, n, a));
    }
  }

  lemma DownFlowOutside(cfg: Config, n: Net, a: Action)
    requires DownFlow(n) && IsOutside(a) && !a.TargetData?
    ensures DownFlow(Step(cfg, n, a))
  {
    DownFlowFrame(n, Step(cfg, n, a));
  }

  lemma DownFlowTarget(cfg: Config, n: Net, data: Chunk)
    requires DownFlow(n)
    ensures DownFlow(Step(cfg, n, TargetData(data)))
  {
    if n.relay.tcp.Some? && !n.targetDestroyed {
      DownFlowSend(n, B.Payload(data));
    }
  }

  lemma DownFlowDeliver(cfg: Config, n: Net)
    requires Handshake(n) && DownFlow(n)
    ensures DownFlow(Step(cfg, n, DeliverDown))
  {
    if n.down != [] && !n.bridge.ws.Closed? {
      DownFlowReply(n);
      var (b, out, bytes) := B.OnReply(n.bridge, n.down[0]);
      var n' := n.(bridge := b, down := n.down[1..],
                   localWritten := n.localWritten + (if bytes.Some? then bytes.value else []));
      DownFlowFrame(n', Step(cfg, n, DeliverDown));
    }
  }

  lemma DownFlowStep(cfg: Config, n: Net, a: Action)
    requires Handshake(n) && DownFlow(n)
    ensures DownFlow(Step(cfg, n, a))
  {
    match a
    case TargetData(data) => DownFlowTarget(cfg, n, data);
    case DeliverDown => DownFlowDeliver(cfg, n);
    case ConnectReady(_, _) => DownFlowConnect(cfg, n, a);
    case _ =>
      if IsOutside(a) {
        DownFlowOutside(cfg, n, a);
      } else {
        DownFlowUpward(cfg, n, a);
      }
  }

  // ------------------------------------------------------------------ whole runs

  lemma {:induction false} RunsKeepFlows(cfg: Config, n: Net, actions: seq<Action>)
    requires Handshake(n) && UpFlow(n) && DownFlow(n)
    ensures var n' := After(cfg, n, actions); Handshake(n') && UpFlow(n') && DownFlow(n')
  {
    if actions != [] {
      var m := After(cfg, n, Init(actions));
      RunsKeepFlows(cfg, n, Init(actions));
      HandshakeStep(cfg, m, Last(actions));
      UpFlowStep(cfg, m, Last(actions));
      DownFlowStep(cfg, m, Last(actions));
    }
  }

  /** At every moment of every run, the bytes written to the target are a prefix of the bytes read from
      the local client, and the bytes written to the client a prefix of those read from the target. */
  lemma BytesArriveInOrder(cfg: Config, n: Net, actions: seq<Action>)
    requires Initial(n)
    ensures After(cfg, n, actions).targetWritten <= After(cfg, n, actions).localRead
    ensures After(cfg, n, actions).localWritten <= After(cfg, n, actions).targetRead
  {
    RunsKeepFlows(cfg, n, actions);
  }

  /** While neither side has closed or been cut off, no byte is lost: what was read and not yet written
      is in flight or waits for the relay's answer. */
  lemma NothingIsLostWhileOpen(cfg: Config, n: Net, actions: seq<Action>)
    requires Initial(n)
    ensures var m := After(cfg, n, actions);
      && (UpAlive(m) && (m.bridge.ws.Open? || m.bridge.ws.Connecting?) ==>
            m.localRead == m.targetWritten + UpBytes(m.up) + Concat(m.bridge.pending))
      && (DownAlive(m) && m.relay.ws.Open? ==> m.targetRead == m.localWritten + DownBytes(m.down))
      && (m.relay.tcp.None? ==> m.targetWritten == m.localWritten == [])
  {
    RunsKeepFlows(cfg, n, actions);
  }

  /** The relay writes to one target socket only: once set, it is never replaced. */
  lemma OneTargetSocket(cfg: Config, n: Net, actions: seq<Action>, a: Action)
    requires Initial(n) && After(cfg, n, actions).relay.tcp.Some?
    ensures Step(cfg, After(cfg, n, actions), a).relay.tcp == After(cfg, n, actions).relay.tcp
  {
    RunsKeepFlows(cfg, n, actions);
  }

  // ------------------------------------------------------------------ bytes do arrive

  /** Both ends have accepted each other, nothing is closing and nothing is cut. */
  predicate Connected(n: Net) {
    && n.bridge.authed && n.bridge.ws.Open? && !n.bridge.closed && !n.bridge.tcpDestroyed && n.bridge.pending == []
    && n.relay.authed && n.relay.tcp.Some? && n.relay.ws.Open? && !n.relay.closed && !n.targetDestroyed
    && !n.upCut && !n.downCut
  }

  function Repeat(a: Action, k: nat): (actions: seq<Action>)
    ensures |actions| == k && forall i | 0 <= i < k :: actions[i] == a
  {
    seq(k, _ => a)
  }

  lemma AfterMore(cfg: Config, n: Net, actions: seq<Action>, a: Action)
    ensures After(cfg, n, actions + [a]) == Step(cfg, After(cfg, n, actions), a)
  {
    OneMore(Joined(cfg), n, actions, a);
  }

  /** From any connected state, delivering all that is in flight upwards writes it all to the target. */
  lemma {:induction false} DeliversUp(cfg: Config, n: Net, h: seq<Action>, id: nat)
    requires var m := After(cfg, n, h);
      Connected(m) && id !in m.runs && forall i | 0 <= i < |m.up| :: m.up[i].UpData?
    ensures var m, m' := After(cfg, n, h), After(cfg, n, h + Repeat(DeliverUp(id, false, 0), |After(cfg, n, h).up|));
      m' == m.(up := [], targetWritten := m.targetWritten + UpBytes(m.up))
    decreases |After(cfg, n, h).up|
  {
    var m, a := After(cfg, n, h), DeliverUp(id, false, 0);
    if m.up == [] {
      assert h + Repeat(a, 0) == h && m.targetWritten + [] == m.targetWritten;
    } else {
      AfterMore(cfg, n, h, a);
      DeliversUp(cfg, n, h + [a], id);
      assert h + Repeat(a, |m.up|) == h + [a] + Repeat(a, |m.up| - 1);
      Assoc(m.targetWritten, UpPart(m.up[0]), UpBytes(m.up[1..]));
    }
  }

  /** The same downwards: all payloads in flight are written to the local client. */
  lemma {:induction false} DeliversDown(cfg: Config, n: Net, h: seq<Action>)
    requires var m := After(cfg, n, h); Connected(m) && forall i | 0 <= i < |m.down| :: m.down[i].Payload?
    ensures var m, m' := After(cfg, n, h), After(cfg, n, h + Repeat(DeliverDown, |After(cfg, n, h).down|));
      m' == m.(down := [], localWritten := m.localWritten + DownBytes(m.down))
    decreases |After(cfg, n, h).down|
  {
    var m, a := After(cfg, n, h), DeliverDown;
    if m.down == [] {
      assert h + Repeat(a, 0) == h && m.localWritten + [] == m.localWritten;
    } else {
      AfterMore(cfg, n, h, a);
      assert m.up + Wrap([]) == m.up;
      DeliversDown(cfg, n, h + [a]);
      assert h + Repeat(a, |m.down|) == h + [a] + Repeat(a, |m.down| - 1);
      Assoc(m.localWritten, DownPart(m.down[0]), DownBytes(m.down[1..]));
    }
  }

  function Reads(chunks: seq<Chunk>): seq<Action> {
    seq(|chunks|, i requires 0 <= i < |chunks| => LocalData(chunks[i]))
  }

  function Answers(chunks: seq<Chunk>): seq<Action> {
    seq(|chunks|, i requires 0 <= i < |chunks| => TargetData(chunks[i]))
  }

  function Payloads(chunks: seq<Chunk>): seq<B.Reply> {
    seq(|chunks|, i requires 0 <= i < |chunks| => B.Payload(chunks[i]))
  }

  lemma {:induction false} PayloadBytes(chunks: seq<Chunk>)
    ensures DownBytes(Payloads(chunks)) == Concat(chunks)
  {
    if chunks != [] {
      PayloadBytes(chunks[1..]);
      assert Payloads(chunks)[1..] == Payloads(chunks[1..]);
    }
  }

  lemma ConcatLast(chunks: seq<Chunk>)
    requires chunks != []
    ensures Concat(chunks) == Concat(Init(chunks)) + Last(chunks)
  {
    assert chunks == Init(chunks) + [Last(chunks)];
    ConcatAppend(Init(chunks), [Last(chunks)]);
    OneChunk(Last(chunks));
  }

  lemma ReadsLast(h: seq<Action>, chunks: seq<Chunk>)
    requires chunks != []
    ensures h + Reads(chunks) == h + Reads(Init(chunks)) + [LocalData(Last(chunks))]
  {
  }

  lemma ReadKept(cfg: Config, m: Net, chunks: seq<Chunk>)
    requires chunks != [] && !m.bridge.authed && !m.bridge.tcpDestroyed
    requires m.bridge.pending == Init(chunks) && m.localRead == Concat(Init(chunks))
    ensures Step(cfg, m, LocalData(Last(chunks))) ==
      m.(bridge := m.bridge.(pending := chunks), localRead := Concat(chunks))
  {
    ConcatLast(chunks);
    assert SendUp(m, Wrap([])) == m.up && Init(chunks) + [Last(chunks)] == chunks;
  }

  /** Chunks read before acceptance are kept in order. */
  lemma {:induction false} ReadsAreKept(cfg: Config, n: Net, h: seq<Action>, chunks: seq<Chunk>)
    requires var m := After(cfg, n, h);
      !m.bridge.authed && !m.bridge.tcpDestroyed && m.bridge.pending == [] && m.localRead == []
    ensures var m := After(cfg, n, h);
      After(cfg, n, h + Reads(chunks)) == m.(bridge := m.bridge.(pending := chunks), localRead := Concat(chunks))
  {
    if chunks == [] {
      assert h + Reads([]) == h;
    } else {
      ReadsAreKept(cfg, n, h, Init(chunks));
      AfterMore(cfg, n, h + Reads(Init(chunks)), LocalData(Last(chunks)));
      ReadsLast(h, chunks);
      ReadKept(cfg, After(cfg, n, h + Reads(Init(chunks))), chunks);
    }
  }

  lemma AnswersLast(h: seq<Action>, chunks: seq<Chunk>)
    requires chunks != []
    ensures h + Answers(chunks) == h + Answers(Init(chunks)) + [TargetData(Last(chunks))]
    ensures Payloads(chunks) == Payloads(Init(chunks)) + [B.Payload(Last(chunks))]
  {
  }

  lemma AnswerSent(cfg: Config, m: Net, chunks: seq<Chunk>)
    requires chunks != [] && m.relay.tcp.Some? && !m.targetDestroyed && m.relay.ws.Open? && !m.downCut
    requires m.down == Payloads(Init(chunks)) && m.targetRead == Concat(Init(chunks))
    ensures Step(cfg, m, TargetData(Last(chunks))) == m.(down := Payloads(chunks), targetRead := Concat(chunks))
  {
    ConcatLast(chunks);
    AnswersLast([], chunks);
  }

  /** Chunks that the target sends on a connection go down in order. */
  lemma {:induction false} AnswersGoDown(cfg: Config, n: Net, h: seq<Action>, chunks: seq<Chunk>)
    requires var m := After(cfg, n, h); Connected(m) && m.down == [] && m.targetRead == []
    ensures var m := After(cfg, n, h);
      After(cfg, n, h + Answers(chunks)) == m.(down := Payloads(chunks), targetRead := Concat(chunks))
  {
    if chunks == [] {
      assert h + Answers([]) == h;
    } else {
      AnswersGoDown(cfg, n, h, Init(chunks));
      AfterMore(cfg, n, h + Answers(Init(chunks)), TargetData(Last(chunks)));
      AnswersLast(h, chunks);
      AnswerSent(cfg, After(cfg, n, h + Answers(Init(chunks))), chunks);
    }
  }

  /** The relay admits the token at time 0: a run of a new socket would start a connect with it. */
  predicate Admits(cfg: Config, n: Net, token: string) {
    ResumeToken(cfg, n.slots, NEW_SOCKET, ResolveToken(cfg, n.records, Some(token), 0).1, 0).2.Some?
  }

  /** It does exactly when the token's record is live and fits the relay, its alias has a usable entry and a slot of
      its session is free. */
  lemma AdmitsExactly(cfg: Config, n: Net, token: string)
    ensures Admits(cfg, n, token) <==>
      && Fits(cfg, n.records, Auth(Some(token)), 0)
      && var resolution := SessionOf(n.records[Sha256(token)]);
      && resolution.Resolved? && TargetFor(cfg, resolution.session).Found?
      && var key := SlotKey(resolution.session);
         key.None? || Count(n.slots, key.value) < cfg.maxConnectionsPerSession
  {
    var resolution := ResolveToken(cfg, n.records, Some(token), 0).1;
    ResolvesExactly(cfg, n.records, Auth(Some(token)), 0);
    ConnectsExactly(cfg, n.slots, NEW_SOCKET, resolution, 0);
  }

  /** The bridge opens, some chunks are read, and the relay takes the token and connects. */
  function Opening(token: string, chunks: seq<Chunk>): seq<Action> {
    [BridgeOpen(token)] + Reads(chunks) + [DeliverUp(0, false, 0)] + [TokenReady(0, 0)] + [ConnectReady(0, Some(1))]
  }

  lemma OpeningReads(cfg: Config, n: Net, token: string, chunks: seq<Chunk>)
    requires Initial(n) && !n.upCut
    ensures After(cfg, n, [BridgeOpen(token)] + Reads(chunks)) ==
      n.(bridge := B.Bridge(B.Open, false, false, false, chunks), up := [AuthFrame(token)], localRead := Concat(chunks))
  {
    assert [BridgeOpen(token)] == [] + [BridgeOpen(token)];
    AfterMore(cfg, n, [], BridgeOpen(token));
    assert n.up + [AuthFrame(token)] == [AuthFrame(token)];
    ReadsAreKept(cfg, n, [BridgeOpen(token)], chunks);
  }

  /** The relay receives the auth message. */
  lemma AuthReceived(cfg: Config, n: Net, m: Net, token: string)
    requires Initial(n) && m == n.(bridge := m.bridge, up := [AuthFrame(token)], localRead := m.localRead)
    ensures var (records, resolution) := ResolveToken(cfg, n.records, Some(token), 0);
      Step(cfg, m, DeliverUp(0, false, 0)) ==
        m.(up := [], records := records, runs := map[0 := Some(AwaitingToken(resolution))])
  {
    assert m.up[1..] == [];
  }

  /** The run it starts is granted a slot and connects. */
  lemma AuthAccepted(cfg: Config, m: Net, resolution: Resolution)
    requires m.relay == NEW_SOCKET && m.runs == map[0 := Some(AwaitingToken(resolution))] && m.down == [] && !m.downCut
    requires ResumeToken(cfg, m.slots, NEW_SOCKET, resolution, 0).2.Some?
    ensures var m' := Step(cfg, Step(cfg, m, TokenReady(0, 0)), ConnectReady(0, Some(1)));
      && m' == m.(slots := m'.slots, relay := m'.relay, runs := map[0 := None], down := [B.OkText])
      && m'.relay.authed && m'.relay.tcp == Some(1) && m'.relay.ws.Open? && !m'.relay.closed
  {
    ConnectsExactly(cfg, m.slots, NEW_SOCKET, resolution, 0);
    var (slots, c, run) := ResumeToken(cfg, m.slots, NEW_SOCKET, resolution, 0);
    assert Step(cfg, m, TokenReady(0, 0)) == m.(slots := slots, relay := c, runs := map[0 := run]);
  }

  /** The connection is up and every chunk read so far is on its way, in order. */
  lemma AfterOpening(cfg: Config, n: Net, token: string, chunks: seq<Chunk>)
    requires Initial(n) && !n.upCut && !n.downCut && Admits(cfg, n, token)
    ensures var m := After(cfg, n, Opening(token, chunks) + [DeliverDown]);
      && Connected(m) && m.runs.Keys == {0} && m.up == Wrap(chunks) && m.down == []
      && m.localRead == Concat(chunks) && m.targetWritten == m.targetRead == m.localWritten == []
  {
    var h := [BridgeOpen(token)] + Reads(chunks);
    var m := After(cfg, n, h);
    OpeningReads(cfg, n, token, chunks);
    AfterMore(cfg, n, h, DeliverUp(0, false, 0));
    AfterMore(cfg, n, h + [DeliverUp(0, false, 0)], TokenReady(0, 0));
    AfterMore(cfg, n, h + [DeliverUp(0, false, 0)] + [TokenReady(0, 0)], ConnectReady(0, Some(1)));
    AuthReceived(cfg, n, m, token);
    AuthAccepted(cfg, Step(cfg, m, DeliverUp(0, false, 0)), ResolveToken(cfg, n.records, Some(token), 0).1);
    AfterMore(cfg, n, Opening(token, chunks), DeliverDown);
    Accepting(cfg, After(cfg, n, Opening(token, chunks)), chunks);
  }

  lemma Accepting(cfg: Config, m: Net, chunks: seq<Chunk>)
    requires m.bridge == B.Bridge(B.Open, false, false, false, chunks) && m.down == [B.OkText] && m.up == [] && !m.upCut
    ensures var m' := Step(cfg, m, DeliverDown);
      m' == m.(bridge := B.Bridge(B.Open, true, false, false, []), up := Wrap(chunks), down := [])
  {
    assert m.up + Wrap(chunks) == Wrap(chunks) && m.localWritten + [] == m.localWritten && m.down[1..] == [];
  }

  /** A whole exchange: `sent` is read before acceptance, and the target answers `back`. */
  function Exchange(token: string, sent: seq<Chunk>, back: seq<Chunk>): seq<Action> {
    Opening(token, sent) + [DeliverDown] + Repeat(DeliverUp(1, false, 0), |sent|) + Answers(back)
    + Repeat(DeliverDown, |back|)
  }

  /** With every admitted token and all chunks both ways, all bytes arrive and everything stays open. */
  lemma ExchangeCompletes(cfg: Config, n: Net, token: string, sent: seq<Chunk>, back: seq<Chunk>)
    requires Initial(n) && !n.upCut && !n.downCut && Admits(cfg, n, token)
    ensures var m := After(cfg, n, Exchange(token, sent, back));
      && Connected(m) && m.up == [] && m.down == []
      && m.targetWritten == m.localRead == Concat(sent)
      && m.localWritten == m.targetRead == Concat(back)
  {
    var h := Opening(token, sent) + [DeliverDown];
    AfterOpening(cfg, n, token, sent);
    DeliversUp(cfg, n, h, 1);
    WrapBytes(sent);
    assert [] + Concat(sent) == Concat(sent) && [] + Concat(back) == Concat(back);
    var h' := h + Repeat(DeliverUp(1, false, 0), |sent|);
    AnswersGoDown(cfg, n, h', back);
    DeliversDown(cfg, n, h' + Answers(back));
    PayloadBytes(back);
  }

  // ------------------------------------------------------------------ the target socket after a close

  /** The relay connection has a target socket and its close event has not been handled. */
  predicate IsLive(n: Net) {
    n.relay.tcp.Some? && !n.relay.closed
  }

  ghost predicate WasLive(cfg: Config, n: Net, actions: seq<Action>) {
    exists k: nat | k <= |actions| :: IsLive(After(cfg, n, actions[..k]))
  }

  /** The target itself closed its socket. */
  ghost predicate TargetClosedIt(cfg: Config, n: Net, actions: seq<Action>) {
    exists k: nat | k < |actions| :: actions[k].TargetClosed? && After(cfg, n, actions[..k]).relay.tcp.Some?
  }

  lemma RelayFrames(cfg: Config, records: Records, c: Socket, f: Frame, now: int, destroyed: bool)
    ensures var c' := BeginAuth(cfg, records, c, f, now).1; c'.tcp == c.tcp && c'.closed == c.closed
    ensures var c' := Forward(c, f, destroyed).0; c'.tcp == c.tcp && c'.closed == c.closed
  {
  }

  lemma TargetReceive(cfg: Config, n: Net, id: nat, f: Frame, now: int)
    ensures var n' := RelayReceives(cfg, n, id, f, now);
      n'.relay.tcp == n.relay.tcp && n'.relay.closed == n.relay.closed && n'.targetDestroyed == n.targetDestroyed
  {
    RelayFrames(cfg, n.records, n.relay, f, now, n.targetDestroyed);
  }

  lemma TargetResume(cfg: Config, n: Net, a: Action)
    requires a.TokenReady? || a.ConnectReady?
    ensures var n' := Step(cfg, n, a);
      && (n.relay.tcp.Some? ==> n'.relay.tcp.Some?)
      && n'.relay.closed == n.relay.closed && n'.targetDestroyed == n.targetDestroyed
  {
    if Waiting(n, a.id) && a.TokenReady? && n.runs[a.id].value.AwaitingToken? {
      ResumeTokenFrame(cfg, n.slots, n.relay, n.runs[a.id].value.resolution, a.now);
    }
  }

  lemma TargetOutside(cfg: Config, n: Net, a: Action)
    requires !a.TokenReady? && !a.ConnectReady? && !a.DeliverUp?
    ensures var n' := Step(cfg, n, a);
      && n'.relay.tcp == n.relay.tcp
      && (n'.relay.closed <==> n.relay.closed || a.RelayWsClosed?)
      && (n'.targetDestroyed <==>
            n.targetDestroyed || (a.RelayWsClosed? && IsLive(n)) || (a.TargetClosed? && n.relay.tcp.Some?))
  {
  }

  lemma TargetStep(cfg: Config, n: Net, a: Action)
    ensures var n' := Step(cfg, n, a);
      && (n.relay.tcp.Some? ==> n'.relay.tcp.Some?)
      && (n'.relay.closed <==> n.relay.closed || a.RelayWsClosed?)
      && (n'.targetDestroyed <==>
            n.targetDestroyed || (a.RelayWsClosed? && IsLive(n)) || (a.TargetClosed? && n.relay.tcp.Some?))
  {
    if a.DeliverUp? {
      if Step(cfg, n, a) != n {
        TargetReceive(cfg, n.(up := n.up[1..]), a.id, Classify(n.up[0], a.tooLarge), a.now);
      }
    } else if a.TokenReady? || a.ConnectReady? {
      TargetResume(cfg, n, a);
    } else {
      TargetOutside(cfg, n, a);
    }
  }

  lemma FrontPrefix(actions: seq<Action>, k: nat)
    requires actions != [] && k < |actions|
    ensures Init(actions)[..k] == actions[..k]
  {
  }

  lemma OneMoreLive(cfg: Config, n: Net, actions: seq<Action>)
    requires actions != []
    ensures WasLive(cfg, n, actions) <==> WasLive(cfg, n, Init(actions)) || IsLive(After(cfg, n, actions))
  {
    var front := Init(actions);
    assert actions[..|actions|] == actions;
    if k: nat :| k <= |actions| && IsLive(After(cfg, n, actions[..k])) {
      if k < |actions| {
        FrontPrefix(actions, k);
      }
    }
    if k: nat :| k <= |front| && IsLive(After(cfg, n, front[..k])) {
      FrontPrefix(actions, k);
    }
  }

  lemma OneMoreTargetClose(cfg: Config, n: Net, actions: seq<Action>)
    requires actions != []
    ensures TargetClosedIt(cfg, n, actions) <==>
      || TargetClosedIt(cfg, n, Init(actions))
      || (Last(actions).TargetClosed? && After(cfg, n, Init(actions)).relay.tcp.Some?)
  {
    var front := Init(actions);
    assert actions[..|front|] == front;
    if k: nat :| k < |actions| && actions[k].TargetClosed? && After(cfg, n, actions[..k]).relay.tcp.Some? {
      if k < |front| {
        FrontPrefix(actions, k);
        assert front[k] == actions[k];
      }
    }
    if k: nat :| k < |front| && front[k].TargetClosed? && After(cfg, n, front[..k]).relay.tcp.Some? {
      FrontPrefix(actions, k);
      assert actions[k] == front[k];
    }
  }

  lemma {:induction false} LiveKeepsSocket(cfg: Config, n: Net, actions: seq<Action>)
    ensures WasLive(cfg, n, actions) ==> After(cfg, n, actions).relay.tcp.Some?
  {
    if actions != [] {
      LiveKeepsSocket(cfg, n, Init(actions));
      TargetStep(cfg, After(cfg, n, Init(actions)), Last(actions));
      OneMoreLive(cfg, n, actions);
    } else {
      assert forall k: nat | k <= |actions| :: actions[..k] == [];
    }
  }

  lemma LiveNow(cfg: Config, n: Net, actions: seq<Action>)
    ensures IsLive(After(cfg, n, actions)) ==> WasLive(cfg, n, actions)
  {
    assert actions[..|actions|] == actions;
  }

  /** At every moment of every run the target socket has been destroyed exactly when the relay connection has
      closed after having had it, or the target closed it. A connect that completes only after the close event
      is thus left open until the target closes it. */
  lemma {:induction false} TargetDestroyedExactly(cfg: Config, n: Net, actions: seq<Action>)
    requires Initial(n)
    ensures var m := After(cfg, n, actions);
      m.targetDestroyed <==> (m.relay.closed && WasLive(cfg, n, actions)) || TargetClosedIt(cfg, n, actions)
  {
    if actions != [] {
      var front := Init(actions);
      TargetDestroyedExactly(cfg, n, front);
      TargetStep(cfg, After(cfg, n, front), Last(actions));
      OneMoreLive(cfg, n, actions);
      OneMoreTargetClose(cfg, n, actions);
      LiveKeepsSocket(cfg, n, front);
      LiveNow(cfg, n, front);
    }
  }

  /** A run of a new socket is resumed, granted a slot and overtaken by the close event. */
  lemma LateSteps(cfg: Config, m: Net, resolution: Resolution)
    requires m.relay == NEW_SOCKET && !m.targetDestroyed && 0 in m.runs && m.runs[0] == Some(AwaitingToken(resolution))
    requires ResumeToken(cfg, m.slots, NEW_SOCKET, resolution, 0).2.Some?
    ensures var closed := Step(cfg, Step(cfg, m, TokenReady(0, 0)), RelayWsClosed);
      var late := Step(cfg, closed, ConnectReady(0, Some(1)));
      late.relay.closed && late.relay.tcp == Some(1) && !late.targetDestroyed
  {
    var m1 := Step(cfg, m, TokenReady(0, 0));
    ResumeTokenFrame(cfg, m.slots, NEW_SOCKET, resolution, 0);
    assert m1.relay.tcp.None? && !m1.relay.closed && m1.runs[0].Some? && m1.runs[0].value.AwaitingConnect?;
    var m2 := Step(cfg, m1, RelayWsClosed);
    assert m2.relay.closed && m2.relay.tcp.None? && !m2.targetDestroyed && m2.runs == m1.runs;
  }

  lemma AuthArrives(cfg: Config, n: Net, token: string)
    requires Initial(n) && !n.upCut
    ensures var m := Step(cfg, Step(cfg, n, BridgeOpen(token)), DeliverUp(0, false, 0));
      && m.relay == NEW_SOCKET && !m.targetDestroyed && m.slots == n.slots && 0 in m.runs
      && m.runs[0] == Some(AwaitingToken(ResolveToken(cfg, n.records, Some(token), 0).1))
  {
    var n1 := Step(cfg, n, BridgeOpen(token));
    assert n1.up == [AuthFrame(token)] && n1.relay == NEW_SOCKET && n1.records == n.records && n1.runs == map[];
  }

  function LateRun(token: string): seq<Action> {
    [BridgeOpen(token)] + [DeliverUp(0, false, 0)] + [TokenReady(0, 0)] + [RelayWsClosed] + [ConnectReady(0, Some(1))]
  }

  /** Such a late connect happens: the close event comes while the connect of an admitted token is pending. */
  lemma LateConnectStaysOpen(cfg: Config, n: Net, token: string)
    requires Initial(n) && !n.upCut
    requires Admits(cfg, n, token)
    ensures var m := After(cfg, n, LateRun(token));
      m.relay.closed && m.relay.tcp == Some(1) && !m.targetDestroyed
  {
    var m := Step(cfg, Step(cfg, n, BridgeOpen(token)), DeliverUp(0, false, 0));
    AuthArrives(cfg, n, token);
    LateSteps(cfg, m, ResolveToken(cfg, n.records, Some(token), 0).1);
    AfterFive(
      cfg, n, BridgeOpen(token), DeliverUp(0, false, 0), TokenReady(0, 0), RelayWsClosed, ConnectReady(0, Some(1)));
  }

  lemma AfterFive(cfg: Config, n: Net, a: Action, b: Action, c: Action, d: Action, e: Action)
    ensures After(cfg, n, [a] + [b] + [c] + [d] + [e])
         == Step(cfg, Step(cfg, Step(cfg, Step(cfg, Step(cfg, n, a), b), c), d), e)
  {
    assert [a] == [] + [a];
    OneMore(Joined(cfg), n, [], a);
    OneMore(Joined(cfg), n, [a], b);
    OneMore(Joined(cfg), n, [a] + [b], c);
    OneMore(Joined(cfg), n, [a] + [b] + [c], d);
    OneMore(Joined(cfg), n, [a] + [b] + [c] + [d], e);
  }
}
