/** The relay: one connection object per WebSocket whose message handler suspends at two awaits, and a
    server object with the table of slots in use. Each stretch of a handler between awaits is one step,
    given by a function on the connection's shared variables and implemented by a method on the objects. */
module Relay {
  import opened Wrappers
  import opened Tokens
  import opened TokenRegistry
  import opened Aliases
  import opened Bytes

  const MIN_RELAY_TOKEN_LENGTH := 8

  datatype HostEntry = Usable(host: string, port: int) | Misconfigured

  datatype Target = Target(alias: string, host: string, port: int)

  datatype Config = Config(
    allowedHosts: map<string, HostEntry>,
    maxConnectionsPerSession: int,
    expectedSessionId: Option<string>,
    expectedHpc: Option<string>,
    origin: Option<string>)

  datatype Session = Session(sessionId: Option<string>, hpc: string, expiresAt: int, fingerprint: string)

  /** An incoming frame, classified by the first test of the handler that it fails, if any. */
  datatype Frame =
    | Binary(data: Chunk)
    | TooLarge
    | BadJson
    | BadType
    | NamesTarget
    | Auth(relayToken: Option<string>)

  datatype CloseReason =
    | AuthRequired
    | AuthMessageTooLarge
    | BadAuthJson
    | BadAuthType
    | ClientTargetNotAllowed
    | TokenRefused(code: Code)
    | InvalidOrExpiredToken
    | TargetNotAllowed
    | ConnectionLimitExceeded
    | TcpConnectFailed
    | RelayError
    | BinaryRequired
    | TcpNotConnected
    | AuthTimeout
    | IdleTimeout
    | MaxLifetimeExceeded
    | TcpClosed
    | TcpError

  datatype ReadyState = Open | Closing | Closed

  /** The variables that all handler runs of one WebSocket share. */
  datatype Socket = Socket(
    authed: bool,
    session: Option<Session>,
    target: Option<Target>,
    tcp: Option<nat>,
    activeKey: Option<string>,
    closed: bool,
    ws: ReadyState,
    closeReason: Option<CloseReason>)

  const NEW_SOCKET := Socket(false, None, None, None, None, false, Open, None)

  /** `activeConnections` */
  type Slots = map<string, int>

  datatype Resolution = Resolved(session: Session) | NoSession | Thrown(code: Code)

  /** What a suspended handler run waits for. */
  datatype Run = AwaitingToken(resolution: Resolution) | AwaitingConnect(target: Target)

  // ------------------------------------------------------------------ token and target

  function FirstTruthy(xs: seq<Option<string>>): Option<string> {
    if xs == [] then None
    else if xs[0].Some? && xs[0].value != "" then xs[0]
    else FirstTruthy(xs[1..])
  }

  function Member(metadata: map<string, string>, key: string): Option<string> {
    if key in metadata then Some(metadata[key]) else None
  }

  /** The alias a record names: its own, or else one of two metadata members. */
  function RecordAlias(r: Record): Option<string> {
    NormalizeAlias(FirstTruthy([r.hpc, Member(r.metadata, "hpc"), Member(r.metadata, "alias")]))
  }

  function RelayExpectation(cfg: Config): Expected {
    Expected(Some(SCOPE_RELAY), cfg.expectedSessionId, cfg.expectedHpc, cfg.origin, Unbound)
  }

  function SessionOf(r: Record): Resolution {
    match RecordAlias(r)
    case None => NoSession
    case Some(alias) => Resolved(Session(r.sessionId, alias, r.expiresAt, r.fingerprint))
  }

  /** `resolveRelayToken` with the memory registry in consume mode. */
  function ResolveToken(cfg: Config, s: Records, token: Option<string>, now: int): (Records, Resolution) {
    if token.None? || |token.value| < MIN_RELAY_TOKEN_LENGTH then (s, NoSession)
    else
      match Consume(s, token.value, RelayExpectation(cfg), now)
      case (_, Err(code)) => (s, Thrown(code))
      case (s', Ok(r)) => (s', SessionOf(r))
  }

  /** A relay record of the configured session, alias and origin, wherever those are given. */
  predicate FitsRelay(cfg: Config, r: Record) {
    && r.scope == "slaif.relay"
    && (cfg.expectedSessionId.Some? ==> r.sessionId == cfg.expectedSessionId)
    && (cfg.expectedHpc.Some? ==> r.hpc == cfg.expectedHpc)
    && (cfg.origin.Some? ==> r.origin == cfg.origin)
  }

  /** The frame carries a token of legal length whose record is live and fits this relay. */
  predicate Fits(cfg: Config, s: Records, f: Frame, now: int) {
    && f.Auth? && f.relayToken.Some? && 16 <= |f.relayToken.value| <= 4096
    && var d := Sha256(f.relayToken.value); d in s && Live(s[d], now) && FitsRelay(cfg, s[d])
  }

  /** A token is consumed exactly when it fits, whatever becomes of its session. */
  lemma ResolvesExactly(cfg: Config, s: Records, f: Frame, now: int)
    requires f.Auth?
    ensures var (s', resolution) := ResolveToken(cfg, s, f.relayToken, now);
      && (Fits(cfg, s, f, now) ==>
            var d := Sha256(f.relayToken.value);
            var r := s[d].(used := s[d].used + 1);
            s' == s[d := r] && resolution == SessionOf(r))
      && (!Fits(cfg, s, f, now) ==> s' == s && !resolution.Resolved?)
  {
    if f.relayToken.Some? {
      GrantedExactly(s, f.relayToken.value, RelayExpectation(cfg), now);
    }
  }

  datatype Lookup = Found(target: Target) | Missing | Throws

  /** `targetForSession` */
  function TargetFor(cfg: Config, session: Session): Lookup {
    match NormalizeAlias(Some(session.hpc))
    case None => Missing
    case Some(alias) =>
      if alias !in cfg.allowedHosts then Missing
      else match cfg.allowedHosts[alias]
        case Misconfigured => Throws
        case Usable(host, port) => Found(Target(alias, host, port))
  }

  /** The alias of a session is the first non-empty one among the record's own and two metadata members, lower-cased;
      the rest of the session is the record's. */
  lemma SessionIsTheRecords(r: Record)
    ensures var own, hpc, alias := r.hpc, Member(r.metadata, "hpc"), Member(r.metadata, "alias");
      var named :=
        if own.Some? && own.value != "" then own
        else if hpc.Some? && hpc.value != "" then hpc
        else alias;
      && (SessionOf(r).Resolved? <==> named.Some? && IsAlias(named.value))
      && (SessionOf(r).Resolved? ==>
            SessionOf(r).session == Session(r.sessionId, Lower(named.value), r.expiresAt, r.fingerprint))
      && (!SessionOf(r).Resolved? ==> SessionOf(r).NoSession?)
  {
    FirstOfThree(r.hpc, Member(r.metadata, "hpc"), Member(r.metadata, "alias"));
  }

  predicate IsTruthy(x: Option<string>) {
    x.Some? && x.value != ""
  }

  lemma FirstOfThree(a: Option<string>, b: Option<string>, c: Option<string>)
    ensures FirstTruthy([a, b, c]) ==
      if IsTruthy(a) then a else if IsTruthy(b) then b else if IsTruthy(c) then c else None
  {
    assert [a, b, c][1..] == [b, c] && [b, c][1..] == [c] && [c][1..] == [];
    assert FirstTruthy([c]) == if IsTruthy(c) then c else None;
    assert FirstTruthy([b, c]) == if IsTruthy(b) then b else FirstTruthy([c]);
  }

  /** A target is found exactly when the session's alias, in lower case, has a usable entry; the entry is the
      target. */
  lemma TargetFoundExactly(cfg: Config, session: Session)
    ensures var alias, found := Lower(session.hpc), TargetFor(cfg, session);
      && (found.Found? <==> IsAlias(session.hpc) && alias in cfg.allowedHosts && cfg.allowedHosts[alias].Usable?)
      && (found.Found? ==>
            found.target == Target(alias, cfg.allowedHosts[alias].host, cfg.allowedHosts[alias].port))
      && (found.Throws? <==>
            IsAlias(session.hpc) && alias in cfg.allowedHosts && cfg.allowedHosts[alias].Misconfigured?)
  {
  }

  // ------------------------------------------------------------------ slots

  function SlotKey(session: Session): Option<string> {
    if session.sessionId.None? || session.sessionId.value == "" || session.hpc == "" then None
    else Some(session.sessionId.value + ":" + session.hpc)
  }

  function Count(slots: Slots, key: string): int {
    if key in slots then slots[key] else 0
  }

  /** `incrementActive`: None when the limit is exceeded and it throws. */
  function Take(slots: Slots, key: Option<string>, limit: int): Option<Slots> {
    if key.None? then Some(slots)
    else if Count(slots, key.value) >= limit then None
    else Some(slots[key.value := Count(slots, key.value) + 1])
  }

  /** `decrementActive` */
  function Release(slots: Slots, key: Option<string>): Slots {
    if key.None? then slots
    else if Count(slots, key.value) <= 1 then slots - {key.value}
    else slots[key.value := slots[key.value] - 1]
  }

  // ------------------------------------------------------------------ the steps of one connection

  /** `safeClose`: only the first call on an open socket has an effect. */
  function Shut(c: Socket, reason: CloseReason): Socket {
    if c.ws.Open? then c.(ws := Closing, closeReason := Some(reason)) else c
  }

  /** A frame arrives while the connection is not authenticated: the run up to its first await. */
  function BeginAuth(cfg: Config, s: Records, c: Socket, f: Frame, now: int): (Records, Socket, Option<Run>) {
    match f
    case Binary(_) => (s, Shut(c, AuthRequired), None)
    case TooLarge => (s, Shut(c, AuthMessageTooLarge), None)
    case BadJson => (s, Shut(c, BadAuthJson), None)
    case BadType => (s, Shut(c, BadAuthType), None)
    case NamesTarget => (s, Shut(c, ClientTargetNotAllowed), None)
    case Auth(token) =>
      var (s', resolution) := ResolveToken(cfg, s, token, now);
      (s', c, Some(AwaitingToken(resolution)))
  }

  /** A frame arrives after authentication: the bytes written to the TCP connection, or None. */
  function Forward(c: Socket, f: Frame, tcpDestroyed: bool): (Socket, Option<Chunk>) {
    if !f.Binary? then (Shut(c, BinaryRequired), None)
    else if c.tcp.None? || tcpDestroyed then (Shut(c, TcpNotConnected), None)
    else (c, Some(f.data))
  }

  /** On an open socket, a frame before authentication starts a run exactly when it is an auth message and closes
      the socket otherwise; after it, a frame is written exactly when it is binary and the connection is there, and
      closes the socket otherwise. */
  lemma FramesHandledExactly(cfg: Config, s: Records, c: Socket, f: Frame, now: int, tcpDestroyed: bool)
    requires c.ws.Open?
    ensures var (s', c', run) := BeginAuth(cfg, s, c, f, now);
      && (run.Some? <==> f.Auth?) && (run.Some? ==> c' == c && run.value.AwaitingToken?)
      && (run.None? ==> s' == s && c' == c.(ws := Closing, closeReason := c'.closeReason))
      && (f.Binary? ==> c'.closeReason == Some(AuthRequired))
      && (f.TooLarge? ==> c'.closeReason == Some(AuthMessageTooLarge))
      && (f.BadJson? ==> c'.closeReason == Some(BadAuthJson))
      && (f.BadType? ==> c'.closeReason == Some(BadAuthType))
      && (f.NamesTarget? ==> c'.closeReason == Some(ClientTargetNotAllowed))
    ensures var (c', written) := Forward(c, f, tcpDestroyed);
      && (written.Some? <==> f.Binary? && c.tcp.Some? && !tcpDestroyed)
      && (written.Some? ==> written.value == f.data && c' == c)
      && (written.None? ==> c' == c.(ws := Closing, closeReason := c'.closeReason))
      && (written.None? ==> c'.closeReason == Some(if f.Binary? then TcpNotConnected else BinaryRequired))
  {
  }

  /** The run resumes after the first await and stops at the second, having started a TCP connect. */
  function ResumeToken(cfg: Config, slots: Slots, c: Socket, resolution: Resolution, now: int)
    : (Slots, Socket, Option<Run>)
  {
    match resolution
    case Thrown(code) => (slots, Shut(c, TokenRefused(code)), None)
    case NoSession => (slots, Shut(c.(session := None), InvalidOrExpiredToken), None)
    case Resolved(session) =>
      var c := c.(session := Some(session));
      if session.expiresAt < now then (slots, Shut(c, InvalidOrExpiredToken), None)
      else
        match TargetFor(cfg, session)
        case Throws => (slots, Shut(c, RelayError), None)
        case Missing => (slots, Shut(c.(target := None), TargetNotAllowed), None)
        case Found(target) =>
          var c := c.(target := Some(target));
          match Take(slots, SlotKey(session), cfg.maxConnectionsPerSession)
          case None => (slots, Shut(c, ConnectionLimitExceeded), None)
          case Some(slots') => (slots', c.(activeKey := SlotKey(session)), Some(AwaitingConnect(target)))
  }

  /** On an open socket, a resumed run starts a connect exactly when its token named a session that has not
      expired, its alias has a usable entry and a slot is free; otherwise it closes the socket, for that reason. */
  lemma ConnectsExactly(cfg: Config, slots: Slots, c: Socket, resolution: Resolution, now: int)
    requires c.ws.Open?
    ensures var (slots', c', run) := ResumeToken(cfg, slots, c, resolution, now);
      var fresh' := resolution.Resolved? && now <= resolution.session.expiresAt;
      var usable := fresh' && TargetFor(cfg, resolution.session).Found?;
      var key := if resolution.Resolved? then SlotKey(resolution.session) else None;
      var free := key.None? || Count(slots, key.value) < cfg.maxConnectionsPerSession;
      && (run.Some? <==> usable && free)
      && (run.Some? ==>
            && run.value == AwaitingConnect(TargetFor(cfg, resolution.session).target)
            && c' == c.(session := Some(resolution.session), target := Some(run.value.target), activeKey := key))
      && (run.None? ==> c'.ws.Closing? && slots' == slots && c'.activeKey == c.activeKey)
      && (c'.closeReason == Some(InvalidOrExpiredToken) && run.None? <==>
            resolution.NoSession? || (resolution.Resolved? && !fresh'))
      && (resolution.Thrown? ==> c'.closeReason == Some(TokenRefused(resolution.code)))
      && (fresh' && TargetFor(cfg, resolution.session).Missing? ==> c'.closeReason == Some(TargetNotAllowed))
      && (fresh' && TargetFor(cfg, resolution.session).Throws? ==> c'.closeReason == Some(RelayError))
      && (usable && !free ==> c'.closeReason == Some(ConnectionLimitExceeded))
  {
  }

  /** The run resumes after the second await; the connect failed (None) or produced a TCP connection.
      On success the "ok" frame is sent. */
  function ResumeConnect(slots: Slots, c: Socket, connected: Option<nat>): (Slots, Socket) {
    match connected
    case None => (Release(slots, c.activeKey), Shut(c.(activeKey := None), TcpConnectFailed))
    case Some(id) => (slots, c.(tcp := Some(id), authed := true))
  }

  /** The close handler. It does not clear `activeKey`. */
  function OnClose(slots: Slots, c: Socket): (Slots, Socket) {
    if c.closed then (slots, c)
    else (Release(slots, c.activeKey), c.(closed := true, ws := Closed))
  }

  // ------------------------------------------------------------------ the objects

  class RelayServer {
    const cfg: Config
    var activeConnections: Slots

    constructor (cfg: Config)
      ensures this.cfg == cfg && activeConnections == map[]
    {
      this.cfg := cfg;
      activeConnections := map[];
    }

    method IncrementActive(session: Session) returns (ok: bool, key: Option<string>)
      modifies this
      ensures Take(old(activeConnections), SlotKey(session), cfg.maxConnectionsPerSession)
           == if ok then Some(activeConnections) else None
      ensures !ok ==> activeConnections == old(activeConnections)
      ensures ok ==> key == SlotKey(session)
    {
      key := SlotKey(session);
      if key.None? {
        return true, None;
      }
      var count := if key.value in activeConnections then activeConnections[key.value] else 0;
      if count >= cfg.maxConnectionsPerSession {
        return false, None;
      }
      activeConnections := activeConnections[key.value := count + 1];
      ok := true;
    }

    method DecrementActive(key: Option<string>)
      modifies this
      ensures activeConnections == Release(old(activeConnections), key)
    {
      if key.None? {
        return;
      }
      var count := if key.value in activeConnections then activeConnections[key.value] else 0;
      if count <= 1 {
        activeConnections := activeConnections - {key.value};
      } else {
        activeConnections := activeConnections[key.value := count - 1];
      }
    }
  }

  class RelayConnection {
    const server: RelayServer
    const registry: TokenRegistry
    var authed: bool
    var session: Option<Session>
    var target: Option<Target>
    var tcp: Option<nat>
    var activeKey: Option<string>
    var closed: bool
    var ws: ReadyState
    var closeReason: Option<CloseReason>

    constructor (server: RelayServer, registry: TokenRegistry)
      ensures this.server == server && this.registry == registry && State() == NEW_SOCKET
    {
      this.server, this.registry := server, registry;
      authed, session, target, tcp, activeKey := false, None, None, None, None;
      closed, ws, closeReason := false, Open, None;
    }

    function State(): Socket
      reads this
    {
      Socket(authed, session, target, tcp, activeKey, closed, ws, closeReason)
    }

    method SafeClose(reason: CloseReason)
      modifies this`ws, this`closeReason
      ensures State() == Shut(old(State()), reason)
    {
      if ws.Open? {
        ws, closeReason := Closing, Some(reason);
      }
    }

    method Resolve(token: Option<string>, now: int) returns (r: Resolution)
      modifies registry
      ensures (registry.records, r) == ResolveToken(server.cfg, old(registry.records), token, now)
    {
      if token.None? || |token.value| < MIN_RELAY_TOKEN_LENGTH {
        return NoSession;
      }
      var consumed := registry.ConsumeToken(token.value, RelayExpectation(server.cfg), now);
      r := if consumed.Ok? then SessionOf(consumed.value) else Thrown(consumed.error);
    }

    method OnMessage(f: Frame, now: int, tcpDestroyed: bool) returns (run: Option<Run>, written: Option<Chunk>)
      modifies this`ws, this`closeReason, registry
      ensures if old(authed)
        then
          && (State(), written) == Forward(old(State()), f, tcpDestroyed)
          && run.None? && registry.records == old(registry.records)
        else
          && (registry.records, State(), run) == BeginAuth(server.cfg, old(registry.records), old(State()), f, now)
          && written.None?
    {
      run, written := None, None;
      if !authed {
        match f {
          case Binary(_) => SafeClose(AuthRequired);
          case TooLarge => SafeClose(AuthMessageTooLarge);
          case BadJson => SafeClose(BadAuthJson);
          case BadType => SafeClose(BadAuthType);
          case NamesTarget => SafeClose(ClientTargetNotAllowed);
          case Auth(token) =>
            var resolution := Resolve(token, now);
            run := Some(AwaitingToken(resolution));
        }
        return;
      }
      if !f.Binary? {
        SafeClose(BinaryRequired);
      } else if tcp.None? || tcpDestroyed {
        SafeClose(TcpNotConnected);
      } else {
        written := Some(f.data);
      }
    }

    method AfterToken(resolution: Resolution, now: int) returns (run: Option<Run>)
      modifies this, server
      ensures (server.activeConnections, State(), run)
           == ResumeToken(server.cfg, old(server.activeConnections), old(State()), resolution, now)
    {
      run := None;
      if resolution.Thrown? {
        SafeClose(TokenRefused(resolution.code));
        return;
      }
      session := if resolution.Resolved? then Some(resolution.session) else None;
      if session.None? || session.value.expiresAt < now {
        SafeClose(InvalidOrExpiredToken);
        return;
      }
      var found := TargetFor(server.cfg, session.value);
      if found.Throws? {
        SafeClose(RelayError);
        return;
      }
      target := if found.Found? then Some(found.target) else None;
      if target.None? {
        SafeClose(TargetNotAllowed);
        return;
      }
      var ok, key := server.IncrementActive(session.value);
      if !ok {
        SafeClose(ConnectionLimitExceeded);
        return;
      }
      activeKey := key;
      run := Some(AwaitingConnect(target.value));
    }

    method AfterConnect(connected: Option<nat>)
      modifies this, server
      ensures (server.activeConnections, State())
           == ResumeConnect(old(server.activeConnections), old(State()), connected)
    {
      if connected.None? {
        server.DecrementActive(activeKey);
        activeKey := None;
        SafeClose(TcpConnectFailed);
        return;
      }
      tcp := connected;
      authed := true;
    }

    method OnWsClose()
      modifies this, server
      ensures (server.activeConnections, State()) == OnClose(old(server.activeConnections), old(State()))
    {
      if closed {
        return;
      }
      closed, ws := true, Closed;
      server.DecrementActive(activeKey);
    }
  }
}
