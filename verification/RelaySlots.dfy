/** Slot accounting in the relay: when a stored count is the number of sockets holding the slot. */
module RelaySlots {
  import opened Wrappers
  import opened Tokens
  import opened TokenRegistry
  import TokenHistories
  import opened Runs
  import opened Relay
  import opened RelayWorld

  ghost predicate SlotsInRange(slots: Slots, limit: int) {
    forall k <- slots :: 1 <= slots[k] <= limit
  }

  /** Every stored count lies between 1 and the limit, in every run. */
  lemma {:induction false} CountsStayInRange(cfg: Config, actions: seq<Action>)
    ensures SlotsInRange(After(cfg, actions).slots, cfg.maxConnectionsPerSession)
  {
    if actions != [] {
      CountsStayInRange(cfg, Init(actions));
      SlotsStep(cfg, After(cfg, Init(actions)), Last(actions));
    }
  }

  lemma SlotsStep(cfg: Config, w: World, a: Action)
    requires SlotsInRange(w.slots, cfg.maxConnectionsPerSession)
    ensures SlotsInRange(Step(cfg, w, a).0.slots, cfg.maxConnectionsPerSession)
  {
    match a
    case TokenReady(id, now) =>
      if AtToken(w, id) {
        ResumeTokenInRange(cfg, w.slots, w.sockets[w.runs[id].socket], w.runs[id].run.value.resolution, now);
      }
    case _ =>
  }

  lemma ResumeTokenInRange(cfg: Config, slots: Slots, c: Socket, resolution: Resolution, now: int)
    requires SlotsInRange(slots, cfg.maxConnectionsPerSession)
    ensures SlotsInRange(ResumeToken(cfg, slots, c, resolution, now).0, cfg.maxConnectionsPerSession)
  {
  }

  // ------------------------------------------------------------------ what a step does to a count and its holders

  function Holds(key: string): Socket -> bool {
    (c: Socket) => !c.closed && c.activeKey == Some(key)
  }

  /** How many open sockets hold a slot of this session and alias. */
  ghost function Holders(w: World, key: string): nat {
    |Select(w.sockets, Holds(key))|
  }

  function Weight(c: Socket, key: string): int {
    if Holds(key)(c) then 1 else 0
  }

  /** The first await ends with a slot granted. */
  predicate Admits(cfg: Config, slots: Slots, resolution: Resolution, now: int) {
    && resolution.Resolved? && now <= resolution.session.expiresAt
    && TargetFor(cfg, resolution.session).Found?
    && Take(slots, SlotKey(resolution.session), cfg.maxConnectionsPerSession).Some?
  }

  /** The action grants a slot of `key`. */
  predicate Grants(cfg: Config, w: World, a: Action, key: string) {
    && a.TokenReady? && AtToken(w, a.id)
    && var resolution := w.runs[a.id].run.value.resolution;
    && Admits(cfg, w.slots, resolution, a.now) && SlotKey(resolution.session) == Some(key)
  }

  /** The action makes a socket forget the slot of `key` it holds, by granting it another. */
  predicate Overwrites(cfg: Config, w: World, a: Action, key: string) {
    && a.TokenReady? && AtToken(w, a.id) && Admits(cfg, w.slots, w.runs[a.id].run.value.resolution, a.now)
    && w.sockets[w.runs[a.id].socket].activeKey == Some(key)
  }

  /** The action gives back a slot of `key`: a connect has failed. */
  predicate FailsWith(w: World, a: Action, key: string) {
    && a.ConnectReady? && a.connected.None? && AtConnect(w, a.id)
    && w.sockets[w.runs[a.id].socket].activeKey == Some(key)
  }

  /** The action gives back a slot of `key`: a socket closes. */
  predicate ClosesWith(w: World, a: Action, key: string) {
    && a.Close? && a.socket in w.sockets && !w.sockets[a.socket].closed && w.sockets[a.socket].activeKey == Some(key)
  }

  /** The socket that the action resumes is closed. */
  predicate Late(w: World, a: Action) {
    && (a.TokenReady? || a.ConnectReady?) && a.id in w.runs && w.runs[a.id].socket in w.sockets
    && w.sockets[w.runs[a.id].socket].closed
  }

  function One(b: bool): int {
    if b then 1 else 0
  }

  lemma ResumeTokenSlots(cfg: Config, slots: Slots, c: Socket, resolution: Resolution, now: int, k: string)
    ensures var (slots', c', _) := ResumeToken(cfg, slots, c, resolution, now);
      var granted := Admits(cfg, slots, resolution, now);
      && Count(slots', k) == Count(slots, k) + One(granted && SlotKey(resolution.session) == Some(k))
      && c'.closed == c.closed
      && c'.activeKey == if granted then SlotKey(resolution.session) else c.activeKey
  {
  }

  lemma ReleaseSlots(slots: Slots, key: Option<string>, k: string)
    requires 0 <= Count(slots, k)
    ensures Count(Release(slots, key), k) == Count(slots, k) - One(key == Some(k) && Count(slots, k) >= 1)
  {
  }

  /** A frame leaves the slot key and the closed flag of its socket alone. */
  lemma FramesKeepKeys(cfg: Config, s: Records, c: Socket, f: Frame, now: int, tcpDestroyed: bool)
    ensures var c' := BeginAuth(cfg, s, c, f, now).1;
      c' == c.(ws := c'.ws, closeReason := c'.closeReason)
    ensures var c' := Forward(c, f, tcpDestroyed).0;
      c' == c.(ws := c'.ws, closeReason := c'.closeReason)
  {
  }

  lemma OneHolder(w: World, sid: nat, k: string)
    requires sid in w.sockets
    ensures Weight(w.sockets[sid], k) <= |Select(w.sockets, Holds(k))|
  {
    if Holds(k)(w.sockets[sid]) {
      assert sid in Select(w.sockets, Holds(k));
    }
  }

  lemma SocketUpdate(sockets: map<nat, Socket>, sid: nat, c: Socket, k: string)
    ensures |Select(sockets[sid := c], Holds(k))|
         == |Select(sockets, Holds(k))| - (if sid in sockets then Weight(sockets[sid], k) else 0) + Weight(c, k)
  {
    SelectUpdate(sockets, sid, c, Holds(k));
  }

  lemma TokenReadyDrifts(cfg: Config, w: World, a: Action, k: string)
    requires a.TokenReady?
    ensures var w' := Step(cfg, w, a).0;
      && Count(w'.slots, k) == Count(w.slots, k) + One(Grants(cfg, w, a, k))
      && Holders(w', k) == Holders(w, k)
           + (if Late(w, a) then 0 else One(Grants(cfg, w, a, k)) - One(Overwrites(cfg, w, a, k)))
  {
    if AtToken(w, a.id) {
      var sid, resolution := w.runs[a.id].socket, w.runs[a.id].run.value.resolution;
      ResumeTokenSlots(cfg, w.slots, w.sockets[sid], resolution, a.now, k);
      SocketUpdate(w.sockets, sid, ResumeToken(cfg, w.slots, w.sockets[sid], resolution, a.now).1, k);
    }
  }

  lemma ConnectReadyDrifts(cfg: Config, w: World, a: Action, k: string)
    requires a.ConnectReady? && 0 <= Count(w.slots, k)
    ensures var w' := Step(cfg, w, a).0;
      && Count(w'.slots, k) == Count(w.slots, k) - One(FailsWith(w, a, k) && Count(w.slots, k) >= 1)
      && Holders(w', k) == Holders(w, k) - One(FailsWith(w, a, k) && !Late(w, a))
  {
    if AtConnect(w, a.id) {
      var sid := w.runs[a.id].socket;
      ReleaseSlots(w.slots, w.sockets[sid].activeKey, k);
      SocketUpdate(w.sockets, sid, ResumeConnect(w.slots, w.sockets[sid], a.connected).1, k);
    }
  }

  lemma OtherwiseDrifts(cfg: Config, w: World, a: Action, k: string)
    requires !a.TokenReady? && !a.ConnectReady? && 0 <= Count(w.slots, k)
    ensures var w' := Step(cfg, w, a).0;
      && Count(w'.slots, k) == Count(w.slots, k) - One(ClosesWith(w, a, k) && Count(w.slots, k) >= 1)
      && Holders(w', k) == Holders(w, k) - One(ClosesWith(w, a, k))
  {
    match a
    case Accept(sid) =>
      SocketUpdate(w.sockets, sid, NEW_SOCKET, k);
    case Message(sid, id, f, now, tcpDestroyed) =>
      if sid in w.sockets {
        FramesKeepKeys(cfg, w.records, w.sockets[sid], f, now, tcpDestroyed);
        SocketUpdate(w.sockets, sid, BeginAuth(cfg, w.records, w.sockets[sid], f, now).1, k);
        SocketUpdate(w.sockets, sid, Forward(w.sockets[sid], f, tcpDestroyed).0, k);
      }
    case ShutDown(sid, reason) =>
      if sid in w.sockets {
        SocketUpdate(w.sockets, sid, Shut(w.sockets[sid], reason), k);
      }
    case Close(sid) =>
      if sid in w.sockets {
        ReleaseSlots(w.slots, w.sockets[sid].activeKey, k);
        SocketUpdate(w.sockets, sid, OnClose(w.slots, w.sockets[sid]).1, k);
      }
    case Registry(c) =>
  }

  /** What every step does to the count of a key and to its holders, in any state. */
  lemma StepDrifts(cfg: Config, w: World, a: Action, k: string)
    requires 0 <= Count(w.slots, k)
    ensures var w' := Step(cfg, w, a).0;
      var back := FailsWith(w, a, k) || ClosesWith(w, a, k);
      && Count(w'.slots, k) == Count(w.slots, k) + One(Grants(cfg, w, a, k)) - One(back && Count(w.slots, k) >= 1)
      && Holders(w', k) == Holders(w, k)
           + (if Late(w, a) then 0 else One(Grants(cfg, w, a, k)) - One(Overwrites(cfg, w, a, k)) - One(back))
  {
    if a.TokenReady? {
      TokenReadyDrifts(cfg, w, a, k);
    } else if a.ConnectReady? {
      ConnectReadyDrifts(cfg, w, a, k);
    } else {
      OtherwiseDrifts(cfg, w, a, k);
    }
  }

  /** A socket that is to give a slot back is one of its holders, unless it is closed. */
  lemma BackFromHolder(w: World, a: Action, k: string)
    requires (FailsWith(w, a, k) && !Late(w, a)) || ClosesWith(w, a, k)
    ensures Holders(w, k) >= 1
  {
    OneHolder(w, if a.Close? then a.socket else w.runs[a.id].socket, k);
  }

  // ------------------------------------------------------------------ when a count is right

  ghost predicate Balanced(w: World, key: string) {
    Count(w.slots, key) == Holders(w, key)
  }

  /** What is about to happen makes the count of `key` wrong: a slot is granted to a closed socket, or a socket
      that holds this slot is granted another, or a closed socket gives back a slot that others still hold. */
  predicate Miscounts(cfg: Config, w: World, a: Action, key: string) {
    || (if Late(w, a) then Grants(cfg, w, a, key) else Overwrites(cfg, w, a, key))
    || (Late(w, a) && FailsWith(w, a, key) && Count(w.slots, key) >= 1)
  }

  /** A right count stays right over a step exactly when the step does not miscount. */
  lemma BalancedStep(cfg: Config, w: World, a: Action, k: string)
    requires Balanced(w, k)
    ensures Balanced(Step(cfg, w, a).0, k) <==> !Miscounts(cfg, w, a, k)
  {
    StepDrifts(cfg, w, a, k);
    if (FailsWith(w, a, k) && !Late(w, a)) || ClosesWith(w, a, k) {
      BackFromHolder(w, a, k);
    }
  }

  ghost predicate BalancedAt(cfg: Config, actions: seq<Action>, key: string, n: nat) {
    n <= |actions| && Balanced(After(cfg, actions[..n]), key)
  }

  ghost predicate MiscountsAt(cfg: Config, actions: seq<Action>, key: string, n: nat) {
    n < |actions| && Miscounts(cfg, After(cfg, actions[..n]), actions[n], key)
  }

  lemma NextAfter(cfg: Config, actions: seq<Action>, n: nat)
    requires n < |actions|
    ensures After(cfg, actions[..n + 1]) == Step(cfg, After(cfg, actions[..n]), actions[n]).0
  {
    PrefixPlusOne(actions, n);
    OneMore(Relaying(cfg), START, actions[..n], actions[n]);
  }

  lemma NothingAtStart(cfg: Config, actions: seq<Action>, key: string)
    ensures After(cfg, actions[..0]) == START && Holders(START, key) == 0 == Count(START.slots, key)
  {
    assert actions[..0] == [];
    assert Select(START.sockets, Holds(key)) == {};
  }

  /** In every run, the count of a session and alias is the number of sockets holding that key at every point
      exactly when no step miscounts it. */
  lemma BalancedExactly(cfg: Config, actions: seq<Action>, key: string)
    ensures (forall n: nat | n <= |actions| :: BalancedAt(cfg, actions, key, n))
       <==> (forall n: nat | n < |actions| :: !MiscountsAt(cfg, actions, key, n))
  {
    var good := (n: nat) => BalancedAt(cfg, actions, key, n);
    var bad := (n: nat) => MiscountsAt(cfg, actions, key, n);
    NothingAtStart(cfg, actions, key);
    forall n: nat | n < |actions| && AllGood(good, n) ensures good(n + 1) <==> !bad(n) {
      assert good(n);
      NextAfter(cfg, actions, n);
      BalancedStep(cfg, After(cfg, actions[..n]), actions[n], key);
    }
    Throughout(|actions|, good, bad);
    assert forall n: nat ::
      (good(n) <==> BalancedAt(cfg, actions, key, n)) && (bad(n) <==> MiscountsAt(cfg, actions, key, n));
  }

  // ------------------------------------------------------------------ when a count covers its holders

  /** No more sockets hold the slot than the count knows of. */
  ghost predicate Covered(w: World, key: string) {
    Holders(w, key) <= Count(w.slots, key)
  }

  /** A closed socket gives back a slot that is not its own any more, and every slot counted has a holder. */
  ghost predicate Underpays(w: World, a: Action, key: string) {
    Late(w, a) && FailsWith(w, a, key) && 1 <= Count(w.slots, key) == Holders(w, key)
  }

  /** A count that covers its holders still does after a step exactly when the step does not underpay. */
  lemma CoveredStep(cfg: Config, w: World, a: Action, k: string)
    requires Covered(w, k)
    ensures Covered(Step(cfg, w, a).0, k) <==> !Underpays(w, a, k)
  {
    StepDrifts(cfg, w, a, k);
    if (FailsWith(w, a, k) && !Late(w, a)) || ClosesWith(w, a, k) {
      BackFromHolder(w, a, k);
    }
  }

  ghost predicate CoveredAt(cfg: Config, actions: seq<Action>, key: string, n: nat) {
    n <= |actions| && Covered(After(cfg, actions[..n]), key)
  }

  ghost predicate UnderpaysAt(cfg: Config, actions: seq<Action>, key: string, n: nat) {
    n < |actions| && Underpays(After(cfg, actions[..n]), actions[n], key)
  }

  /** In every run, the count of a session and alias covers its holders at every point exactly when no step
      underpays it. */
  lemma CoveredExactly(cfg: Config, actions: seq<Action>, key: string)
    ensures (forall n: nat | n <= |actions| :: CoveredAt(cfg, actions, key, n))
       <==> (forall n: nat | n < |actions| :: !UnderpaysAt(cfg, actions, key, n))
  {
    var good := (n: nat) => CoveredAt(cfg, actions, key, n);
    var bad := (n: nat) => UnderpaysAt(cfg, actions, key, n);
    NothingAtStart(cfg, actions, key);
    forall n: nat | n < |actions| && AllGood(good, n) ensures good(n + 1) <==> !bad(n) {
      assert good(n);
      NextAfter(cfg, actions, n);
      CoveredStep(cfg, After(cfg, actions[..n]), actions[n], key);
    }
    Throughout(|actions|, good, bad);
    assert forall n: nat ::
      (good(n) <==> CoveredAt(cfg, actions, key, n)) && (bad(n) <==> UnderpaysAt(cfg, actions, key, n));
  }

  // ------------------------------------------------------------------ when the limit holds

  function Limit(cfg: Config): nat {
    if cfg.maxConnectionsPerSession < 0 then 0 else cfg.maxConnectionsPerSession
  }

  /** An open socket that does not hold the slot is granted it while as many hold it as the limit allows. */
  ghost predicate Overfills(cfg: Config, w: World, a: Action, key: string) {
    && Grants(cfg, w, a, key) && !Late(w, a) && !Overwrites(cfg, w, a, key) && Holders(w, key) == Limit(cfg)
  }

  /** Within the limit, a step leaves it exactly when it overfills; and then the count had lost a holder. */
  lemma LimitStep(cfg: Config, w: World, a: Action, k: string)
    requires 0 <= Count(w.slots, k) && Holders(w, k) <= Limit(cfg)
    ensures Holders(Step(cfg, w, a).0, k) <= Limit(cfg) <==> !Overfills(cfg, w, a, k)
    ensures Overfills(cfg, w, a, k) ==> !Covered(w, k)
  {
    StepDrifts(cfg, w, a, k);
  }

  ghost predicate WithinLimitAt(cfg: Config, actions: seq<Action>, key: string, n: nat) {
    n <= |actions| && Holders(After(cfg, actions[..n]), key) <= Limit(cfg)
  }

  ghost predicate OverfillsAt(cfg: Config, actions: seq<Action>, key: string, n: nat) {
    n < |actions| && Overfills(cfg, After(cfg, actions[..n]), actions[n], key)
  }

  lemma CountIsNatural(cfg: Config, actions: seq<Action>, key: string)
    ensures 0 <= Count(After(cfg, actions).slots, key) <= Limit(cfg)
  {
    CountsStayInRange(cfg, actions);
  }

  /** In every run, the holders of a session and alias stay within the limit exactly when no step overfills. */
  lemma LimitExactly(cfg: Config, actions: seq<Action>, key: string)
    ensures (forall n: nat | n <= |actions| :: WithinLimitAt(cfg, actions, key, n))
       <==> (forall n: nat | n < |actions| :: !OverfillsAt(cfg, actions, key, n))
  {
    var good := (n: nat) => WithinLimitAt(cfg, actions, key, n);
    var bad := (n: nat) => OverfillsAt(cfg, actions, key, n);
    NothingAtStart(cfg, actions, key);
    forall n: nat | n < |actions| && AllGood(good, n) ensures good(n + 1) <==> !bad(n) {
      assert good(n);
      NextAfter(cfg, actions, n);
      CountIsNatural(cfg, actions[..n], key);
      LimitStep(cfg, After(cfg, actions[..n]), actions[n], key);
    }
    Throughout(|actions|, good, bad);
    assert forall n: nat ::
      (good(n) <==> WithinLimitAt(cfg, actions, key, n)) && (bad(n) <==> OverfillsAt(cfg, actions, key, n));
  }

  /** So long as no step underpays a key, its holders stay within the limit, whatever messages overlap and
      whatever closes. */
  lemma HoldersWithinLimit(cfg: Config, actions: seq<Action>, key: string)
    requires forall n: nat | n < |actions| :: !UnderpaysAt(cfg, actions, key, n)
    ensures Holders(After(cfg, actions), key) <= Limit(cfg)
    ensures forall n: nat | n < |actions| :: !OverfillsAt(cfg, actions, key, n)
  {
    CoveredExactly(cfg, actions, key);
    forall n: nat | n < |actions| ensures !OverfillsAt(cfg, actions, key, n) {
      assert CoveredAt(cfg, actions, key, n);
      LimitStepAt(cfg, actions, key, n);
    }
    assert CoveredAt(cfg, actions, key, |actions|);
    assert actions[..|actions|] == actions;
    CountIsNatural(cfg, actions, key);
  }

  lemma LimitStepAt(cfg: Config, actions: seq<Action>, key: string, n: nat)
    requires n < |actions| && CoveredAt(cfg, actions, key, n)
    ensures !OverfillsAt(cfg, actions, key, n)
  {
    CountIsNatural(cfg, actions[..n], key);
    if OverfillsAt(cfg, actions, key, n) {
      LimitStep(cfg, After(cfg, actions[..n]), actions[n], key);
    }
  }

  // ------------------------------------------------------------------ live sockets hold what they were granted

  /** Authenticated sockets of one session and alias that have not been asked to close. */
  function OpenLive(key: string): Socket -> bool {
    (c: Socket) =>
      !c.closed && c.ws.Open? && c.authed && c.session.Some? && SlotKey(c.session.value) == Some(key)
  }

  /** The socket holds the slot of the session it was last given. */
  predicate HoldsItsOwn(c: Socket) {
    c.session.Some? && c.activeKey == SlotKey(c.session.value)
  }

  /** Whatever messages overlap: an open socket that is authenticated, or that a run is connecting, holds its own. */
  ghost predicate Honest(w: World) {
    && (forall sid <- w.sockets | w.sockets[sid].ws.Open? && w.sockets[sid].authed :: HoldsItsOwn(w.sockets[sid]))
    && (forall id <- w.runs | AtConnect(w, id) && w.sockets[w.runs[id].socket].ws.Open? ::
          HoldsItsOwn(w.sockets[w.runs[id].socket]))
  }

  lemma ResumeTokenHonest(cfg: Config, slots: Slots, c: Socket, resolution: Resolution, now: int)
    ensures var (_, c', run) := ResumeToken(cfg, slots, c, resolution, now);
      && c'.authed == c.authed
      && (c'.ws.Open? ==> c.ws.Open? && run.Some? && run.value.AwaitingConnect? && HoldsItsOwn(c'))
  {
  }

  lemma ResumeConnectHonest(slots: Slots, c: Socket, connected: Option<nat>)
    requires c.ws.Open? ==> HoldsItsOwn(c)
    ensures var (_, c') := ResumeConnect(slots, c, connected); c'.ws.Open? ==> c.ws.Open? && HoldsItsOwn(c')
  {
  }

  /** Replacing one socket by one that is shut or holds its own, and one of its runs. */
  lemma HonestUpdate(w: World, w': World, sid: nat, id: nat)
    requires Honest(w) && sid in w'.sockets && w'.sockets == w.sockets[sid := w'.sockets[sid]]
    requires id in w'.runs && w'.runs == w.runs[id := w'.runs[id]] && w'.runs[id].socket == sid
    requires w'.sockets[sid].ws.Open? ==> HoldsItsOwn(w'.sockets[sid])
    ensures Honest(w')
  {
    forall i <- w'.runs | AtConnect(w', i) && w'.sockets[w'.runs[i].socket].ws.Open?
      ensures HoldsItsOwn(w'.sockets[w'.runs[i].socket])
    {
      if w'.runs[i].socket != sid {
        assert i != id && AtConnect(w, i);
      }
    }
  }

  lemma HonestResume(cfg: Config, w: World, a: Action)
    requires Honest(w) && (a.TokenReady? || a.ConnectReady?)
    ensures Honest(Step(cfg, w, a).0)
  {
    if a.TokenReady? && AtToken(w, a.id) {
      var p := w.runs[a.id];
      ResumeTokenHonest(cfg, w.slots, w.sockets[p.socket], p.run.value.resolution, a.now);
      HonestUpdate(w, Step(cfg, w, a).0, p.socket, a.id);
    } else if a.ConnectReady? && AtConnect(w, a.id) {
      var p := w.runs[a.id];
      ResumeConnectHonest(w.slots, w.sockets[p.socket], a.connected);
      HonestUpdate(w, Step(cfg, w, a).0, p.socket, a.id);
    }
  }

  /** A socket is left alone or shut, and no run gets to its connect. */
  lemma HonestShut(w: World, w': World, sid: nat)
    requires Honest(w) && RunsHaveSockets(w) && sid in w.sockets && sid in w'.sockets
    requires w'.sockets == w.sockets[sid := w'.sockets[sid]]
    requires w'.sockets[sid].ws.Open? ==> w'.sockets[sid] == w.sockets[sid]
    requires forall id <- w'.runs :: (id in w.runs && w'.runs[id] == w.runs[id]) || !AtConnect(w', id)
    ensures Honest(w')
  {
    forall id <- w'.runs | AtConnect(w', id) && w'.sockets[w'.runs[id].socket].ws.Open?
      ensures HoldsItsOwn(w'.sockets[w'.runs[id].socket])
    {
      assert AtConnect(w, id);
    }
  }

  lemma HonestMessage(cfg: Config, w: World, a: Action)
    requires Honest(w) && RunsHaveSockets(w) && a.Message?
    ensures Honest(Step(cfg, w, a).0)
  {
    if Step(cfg, w, a).0 != w {
      ShutOrSame(cfg, w.records, w.sockets[a.socket], a.frame, a.now, a.tcpDestroyed);
      HonestShut(w, Step(cfg, w, a).0, a.socket);
    }
  }

  lemma HonestClosing(cfg: Config, w: World, a: Action)
    requires Honest(w) && RunsHaveSockets(w) && (a.ShutDown? || a.Close?)
    ensures Honest(Step(cfg, w, a).0)
  {
    if a.socket in w.sockets {
      HonestShut(w, Step(cfg, w, a).0, a.socket);
    }
  }

  lemma HonestRest(cfg: Config, w: World, a: Action)
    requires Honest(w) && RunsHaveSockets(w) && (a.Accept? || a.Registry?)
    ensures Honest(Step(cfg, w, a).0)
  {
    var w' := Step(cfg, w, a).0;
    forall id <- w'.runs | AtConnect(w', id) && w'.sockets[w'.runs[id].socket].ws.Open?
      ensures HoldsItsOwn(w'.sockets[w'.runs[id].socket])
    {
      assert AtConnect(w, id);
    }
  }

  lemma ShutOrSame(cfg: Config, s: Records, c: Socket, f: Frame, now: int, tcpDestroyed: bool)
    ensures var (_, c', run) := BeginAuth(cfg, s, c, f, now);
      (c'.ws.Open? ==> c' == c) && (run.Some? ==> run.value.AwaitingToken?)
    ensures var c' := Forward(c, f, tcpDestroyed).0; c'.ws.Open? ==> c' == c
  {
  }

  ghost predicate RunsHaveSockets(w: World) {
    forall id <- w.runs :: w.runs[id].socket in w.sockets
  }

  lemma SocketsStay(cfg: Config, w: World, a: Action)
    requires RunsHaveSockets(w)
    ensures RunsHaveSockets(Step(cfg, w, a).0)
  {
  }

  lemma {:induction false} RunsAreHonest(cfg: Config, actions: seq<Action>)
    ensures RunsHaveSockets(After(cfg, actions)) && Honest(After(cfg, actions))
  {
    if actions != [] {
      var w, a := After(cfg, Init(actions)), Last(actions);
      RunsAreHonest(cfg, Init(actions));
      SocketsStay(cfg, w, a);
      if a.TokenReady? || a.ConnectReady? {
        HonestResume(cfg, w, a);
      } else if a.Message? {
        HonestMessage(cfg, w, a);
      } else if a.ShutDown? || a.Close? {
        HonestClosing(cfg, w, a);
      } else {
        HonestRest(cfg, w, a);
      }
    }
  }

  /** In every run, a live socket that has not been asked to close holds its slot; so in a run that never
      underpays the key, the live sockets of a session and alias stay within the limit. */
  lemma OpenLiveWithinLimit(cfg: Config, actions: seq<Action>, key: string)
    ensures Select(After(cfg, actions).sockets, OpenLive(key)) <= Select(After(cfg, actions).sockets, Holds(key))
    ensures (forall n: nat | n < |actions| :: !UnderpaysAt(cfg, actions, key, n)) ==>
      |Select(After(cfg, actions).sockets, OpenLive(key))| <= Limit(cfg)
  {
    var sockets := After(cfg, actions).sockets;
    RunsAreHonest(cfg, actions);
    forall sid <- Select(sockets, OpenLive(key)) ensures sid in Select(sockets, Holds(key)) {
      assert HoldsItsOwn(sockets[sid]);
    }
    SubsetSize(Select(sockets, OpenLive(key)), Select(sockets, Holds(key)));
    if forall n: nat | n < |actions| :: !UnderpaysAt(cfg, actions, key, n) {
      HoldersWithinLimit(cfg, actions, key);
    }
  }

  // ------------------------------------------------------------------ orderly runs

  predicate Suspended(w: World, socket: nat) {
    exists id <- w.runs :: w.runs[id].socket == socket && w.runs[id].run.Some?
  }

  /** The action does not close a socket, or send it another auth message, while a run of it is suspended. */
  predicate Orderly(w: World, a: Action) {
    match a
    case Close(sid) => !Suspended(w, sid)
    case Message(sid, _, f, _, _) => f.Auth? ==> !Suspended(w, sid)
    case _ => true
  }

  ghost predicate OrderlyRun(cfg: Config, actions: seq<Action>) {
    actions != [] ==>
      OrderlyRun(cfg, Init(actions)) && Orderly(After(cfg, Init(actions)), Last(actions))
  }

  /** Live authenticated sockets of one session and alias. */
  function LiveWith(key: string): Socket -> bool {
    (c: Socket) => !c.closed && c.authed && c.session.Some? && SlotKey(c.session.value) == Some(key)
  }

  ghost predicate SocketFits(w: World, sid: nat)
    requires sid in w.sockets
  {
    var c := w.sockets[sid];
    && (c.authed ==> c.session.Some? && c.activeKey == SlotKey(c.session.value))
    && (!c.authed && !Suspended(w, sid) ==> c.activeKey == None)
  }

  ghost predicate RunFits(w: World, id: nat)
    requires id in w.runs
  {
    var p := w.runs[id];
    p.run.Some? ==>
      && p.socket in w.sockets && !w.sockets[p.socket].authed && !w.sockets[p.socket].closed
      && var c := w.sockets[p.socket];
      && (match p.run.value
          case AwaitingToken(_) => c.activeKey == None
          case AwaitingConnect(_) => c.session.Some? && c.activeKey == SlotKey(c.session.value))
      && (forall id' <- w.runs | w.runs[id'].run.Some? && w.runs[id'].socket == p.socket :: id' == id)
  }

  ghost predicate Tidy(w: World) {
    && (forall sid <- w.sockets :: SocketFits(w, sid))
    && (forall id <- w.runs :: RunFits(w, id))
    && (forall id <- w.runs | w.runs[id].run.Some? :: w.runs[id].socket in w.sockets)
  }

  lemma ResumeTokenFits(cfg: Config, slots: Slots, c: Socket, resolution: Resolution, now: int)
    requires c.activeKey == None && !c.closed && !c.authed
    ensures var (_, c', run) := ResumeToken(cfg, slots, c, resolution, now);
      && !c'.closed && !c'.authed
      && (run.None? ==> c'.activeKey == None)
      && (run.Some? ==> run.value.AwaitingConnect? && c'.session.Some? && c'.activeKey == SlotKey(c'.session.value))
  {
  }

  /** Replacing one socket and one of its runs keeps the world tidy when the new pair fits. */
  lemma TidyUpdate(w: World, w': World, sid: nat, id: nat)
    requires Tidy(w) && sid in w'.sockets
    requires w'.sockets == w.sockets[sid := w'.sockets[sid]]
    requires id in w'.runs && w'.runs == w.runs[id := w'.runs[id]] && w'.runs[id].socket == sid
    requires id in w.runs ==> w.runs[id].socket == sid
    requires forall id' <- w.runs | w.runs[id'].run.Some? && w.runs[id'].socket == sid :: id' == id
    requires SocketFits(w', sid) && RunFits(w', id)
    ensures Tidy(w')
  {
    forall sid' <- w'.sockets | sid' != sid ensures SocketFits(w', sid') {
      assert SocketFits(w, sid');
      if Suspended(w, sid') {
        var id' :| id' in w.runs && w.runs[id'].socket == sid' && w.runs[id'].run.Some?;
        assert w'.runs[id'] == w.runs[id'];
      }
    }
    forall id' <- w'.runs | id' != id ensures RunFits(w', id') {
      assert RunFits(w, id');
    }
  }

  /** A change that touches no key, flag or session of a socket keeps the world tidy. */
  lemma TidyFrame(w: World, w': World, sid: nat)
    requires Tidy(w) && sid in w.sockets && sid in w'.sockets && w'.runs == w.runs
    requires var c' := w'.sockets[sid];
      w'.sockets == w.sockets[sid := w.sockets[sid].(ws := c'.ws, closeReason := c'.closeReason)]
    ensures Tidy(w')
  {
    forall sid' <- w'.sockets ensures SocketFits(w', sid') {
      assert SocketFits(w, sid');
    }
    forall id' <- w'.runs ensures RunFits(w', id') {
      assert RunFits(w, id');
    }
  }

  lemma TidyFinished(w: World, w': World, id: nat)
    requires Tidy(w) && w'.sockets == w.sockets && id !in w.runs
    requires id in w'.runs && w'.runs[id].run.None? && w'.runs == w.runs[id := w'.runs[id]]
    ensures Tidy(w')
  {
    forall sid' <- w'.sockets ensures SocketFits(w', sid') {
      assert SocketFits(w, sid');
      if Suspended(w, sid') {
        var id' :| id' in w.runs && w.runs[id'].socket == sid' && w.runs[id'].run.Some?;
        assert w'.runs[id'] == w.runs[id'];
      }
    }
    forall id' <- w'.runs ensures RunFits(w', id') {
      assert id' != id ==> RunFits(w, id');
    }
  }

  lemma TidyClose(w: World, w': World, sid: nat)
    requires Tidy(w) && sid in w.sockets && !Suspended(w, sid) && w'.runs == w.runs
    requires w'.sockets == w.sockets[sid := w.sockets[sid].(closed := true, ws := Closed)]
    ensures Tidy(w')
  {
    forall sid' <- w'.sockets ensures SocketFits(w', sid') {
      assert SocketFits(w, sid');
    }
    forall id' <- w'.runs ensures RunFits(w', id') {
      assert RunFits(w, id');
    }
  }

  lemma TidyMessage(cfg: Config, w: World, a: Action)
    requires Tidy(w) && Orderly(w, a) && a.Message?
    ensures Tidy(Step(cfg, w, a).0)
  {
    var w' := Step(cfg, w, a).0;
    var sid := a.socket;
    if w' != w {
      var c := w.sockets[sid];
      assert SocketFits(w, sid);
      FramesKeepKeys(cfg, w.records, c, a.frame, a.now, a.tcpDestroyed);
      if c.authed {
        TidyFrame(w, w', sid);
      } else if a.frame.Auth? {
        assert w'.sockets[sid] == c;
        assert w'.runs[a.id].run.Some?;
        TidyUpdate(w, w', sid, a.id);
      } else {
        var mid := w.(sockets := w'.sockets);
        TidyFrame(w, mid, sid);
        TidyFinished(mid, w', a.id);
      }
    }
  }

  /** A new socket, and nothing but the registry or the slots otherwise. */
  lemma TidyOutside(w: World, w': World)
    requires Tidy(w) && w'.runs == w.runs
    requires forall sid <- w.sockets :: sid in w'.sockets && w'.sockets[sid] == w.sockets[sid]
    requires forall sid <- w'.sockets | sid !in w.sockets :: w'.sockets[sid] == NEW_SOCKET
    ensures Tidy(w')
  {
    forall sid <- w'.sockets ensures SocketFits(w', sid) {
      assert sid in w.sockets ==> SocketFits(w, sid);
    }
    forall id <- w'.runs ensures RunFits(w', id) {
      assert RunFits(w, id);
    }
  }

  lemma TidyResume(cfg: Config, w: World, a: Action)
    requires Tidy(w) && (a.TokenReady? || a.ConnectReady?) && a.id in w.runs && w.runs[a.id].run.Some?
    ensures Tidy(Step(cfg, w, a).0)
  {
    var w', p := Step(cfg, w, a).0, w.runs[a.id];
    assert RunFits(w, a.id);
    if a.TokenReady? && p.run.value.AwaitingToken? {
      ResumeTokenFits(cfg, w.slots, w.sockets[p.socket], p.run.value.resolution, a.now);
      TidyUpdate(w, w', p.socket, a.id);
    } else if a.ConnectReady? && p.run.value.AwaitingConnect? {
      TidyUpdate(w, w', p.socket, a.id);
    }
  }

  lemma TidyStep(cfg: Config, w: World, a: Action)
    requires Tidy(w) && Orderly(w, a)
    ensures Tidy(Step(cfg, w, a).0)
  {
    if a.Accept? || a.Registry? {
      TidyOutside(w, Step(cfg, w, a).0);
    } else if a.Message? {
      TidyMessage(cfg, w, a);
    } else if a.ShutDown? {
      if a.socket in w.sockets {
        TidyFrame(w, Step(cfg, w, a).0, a.socket);
      }
    } else if a.Close? {
      if a.socket in w.sockets && !w.sockets[a.socket].closed {
        TidyClose(w, Step(cfg, w, a).0, a.socket);
      }
    } else if a.id in w.runs && w.runs[a.id].run.Some? {
      TidyResume(cfg, w, a);
    }
  }

  lemma {:induction false} OrderlyRunsAreTidy(cfg: Config, actions: seq<Action>)
    requires OrderlyRun(cfg, actions)
    ensures Tidy(After(cfg, actions))
  {
    if actions != [] {
      OrderlyRunsAreTidy(cfg, Init(actions));
      TidyStep(cfg, After(cfg, Init(actions)), Last(actions));
    }
  }

  lemma OrderlyStepsCount(cfg: Config, w: World, a: Action, k: string)
    requires Tidy(w)
    ensures !Miscounts(cfg, w, a, k)
  {
    if (a.TokenReady? || a.ConnectReady?) && a.id in w.runs {
      assert RunFits(w, a.id);
    }
  }

  lemma {:induction false} OrderlyPrefix(cfg: Config, actions: seq<Action>, n: nat)
    requires OrderlyRun(cfg, actions) && n <= |actions|
    ensures OrderlyRun(cfg, actions[..n])
  {
    if n < |actions| {
      OrderlyPrefix(cfg, Init(actions), n);
      assert Init(actions)[..n] == actions[..n];
    } else {
      assert actions[..n] == actions;
    }
  }

  /** A step that underpays miscounts. */
  lemma UnderpayingMiscounts(cfg: Config, w: World, a: Action, k: string)
    ensures Underpays(w, a, k) ==> Miscounts(cfg, w, a, k)
  {
  }

  /** No step of an orderly run miscounts, so every count is the number of sockets holding its key. */
  lemma OrderlyRunsAreAccounted(cfg: Config, actions: seq<Action>, key: string)
    requires OrderlyRun(cfg, actions)
    ensures forall n: nat | n < |actions| :: !MiscountsAt(cfg, actions, key, n)
    ensures Tidy(After(cfg, actions)) && Balanced(After(cfg, actions), key)
  {
    forall n: nat | n < |actions| ensures !MiscountsAt(cfg, actions, key, n) {
      OrderlyPrefix(cfg, actions, n);
      OrderlyRunsAreTidy(cfg, actions[..n]);
      OrderlyStepsCount(cfg, After(cfg, actions[..n]), actions[n], key);
    }
    OrderlyRunsAreTidy(cfg, actions);
    BalancedExactly(cfg, actions, key);
    assert BalancedAt(cfg, actions, key, |actions|);
    assert actions[..|actions|] == actions;
  }

  /** In orderly runs the live authenticated sockets of a session and alias hold its key, and so stay within
      the limit. */
  lemma LiveSocketsWithinLimit(cfg: Config, actions: seq<Action>, k: string)
    requires OrderlyRun(cfg, actions)
    ensures var w := After(cfg, actions);
      && Select(w.sockets, LiveWith(k)) <= Select(w.sockets, Holds(k))
      && |Select(w.sockets, LiveWith(k))| <= Limit(cfg)
  {
    var w := After(cfg, actions);
    OrderlyRunsAreAccounted(cfg, actions, k);
    CountIsNatural(cfg, actions, k);
    forall sid <- Select(w.sockets, LiveWith(k)) ensures sid in Select(w.sockets, Holds(k)) {
      assert SocketFits(w, sid);
    }
    SubsetSize(Select(w.sockets, LiveWith(k)), Select(w.sockets, Holds(k)));
  }

  lemma SubsetSize<T>(a: set<T>, b: set<T>)
    requires a <= b
    ensures |a| <= |b|
  {
    assert b == a + (b - a);
  }

  // ------------------------------------------------------------------ miscounting runs

  /** A token issued at time 0 that admits three relay connections to a usable host. */
  ghost predicate Admissible(cfg: Config, token: string, q: Request, fp: string) {
    && CheckRequest(q).None? && BindingsFit(q) && LegalToken(token) && q.maxUses.value >= 3
    && var r := NewRecord(q, fp, 0);
    && CheckRecord(r, RelayExpectation(cfg), 0).None?
    && SessionOf(r).Resolved?
    && SlotKey(SessionOf(r).session).Some? && TargetFor(cfg, SessionOf(r).session).Found?
  }

  const SAMPLE_REQUEST :=
    Request(SCOPE_RELAY, Some("sess_1"), Some("cluster"), None, Some(1000), Some(3), map[])

  lemma SomeTokenIsAdmissible(cfg: Config, token: string, fp: string)
    requires cfg.allowedHosts == map["cluster" := Usable("host", 22)] && LegalToken(token)
    requires cfg.expectedSessionId == None && cfg.expectedHpc == None && cfg.origin == None
    ensures Admissible(cfg, token, SAMPLE_REQUEST, fp)
  {
    assert Aliases.Lower("cluster") == "cluster";
  }

  function KeyOf(q: Request, fp: string): string
    requires CheckRequest(q).None? && SessionOf(NewRecord(q, fp, 0)).Resolved?
    requires SlotKey(SessionOf(NewRecord(q, fp, 0)).session).Some?
  {
    SlotKey(SessionOf(NewRecord(q, fp, 0)).session).value
  }

  /** The record after `used` uses. */
  function Used(q: Request, fp: string, used: int): Record
    requires CheckRequest(q).None?
  {
    NewRecord(q, fp, 0).(used := used)
  }

  /** A socket that has been granted a slot, and its run. */
  ghost function Granted(cfg: Config, q: Request, fp: string): Socket
    requires CheckRequest(q).None? && SessionOf(NewRecord(q, fp, 0)).Resolved?
    requires TargetFor(cfg, SessionOf(NewRecord(q, fp, 0)).session).Found?
  {
    var session := SessionOf(NewRecord(q, fp, 0)).session;
    NEW_SOCKET.(session := Some(session), target := Some(TargetFor(cfg, session).target), activeKey := SlotKey(session))
  }

  ghost function Connecting(cfg: Config, q: Request, fp: string, token: string, sid: nat, used: int): Pending
    requires CheckRequest(q).None? && SessionOf(NewRecord(q, fp, 0)).Resolved?
    requires TargetFor(cfg, SessionOf(NewRecord(q, fp, 0)).session).Found?
  {
    var target := TargetFor(cfg, SessionOf(NewRecord(q, fp, 0)).session).target;
    Pending(sid, Some((Sha256(token), Used(q, fp, used))), Some(AwaitingConnect(target)))
  }

  function Issuing(token: string, q: Request, fp: string): seq<Action> {
    [Registry(TokenHistories.Call(0, TokenHistories.IssueOp(token, q, fp)))]
  }

  /** A message with this token, and the run it starts up to its second await. */
  function Asking(sid: nat, id: nat, token: string): seq<Action> {
    [Message(sid, id, Auth(Some(token)), 0, false), TokenReady(id, 0)]
  }

  function Joining(sid: nat, id: nat, token: string): seq<Action> {
    [Accept(sid)] + Asking(sid, id, token)
  }

  lemma AfterOne(cfg: Config, actions: seq<Action>, a: Action)
    ensures After(cfg, actions + [a]) == Step(cfg, After(cfg, actions), a).0
  {
    OneMore(Relaying(cfg), START, actions, a);
  }

  lemma AfterIssuing(cfg: Config, token: string, q: Request, fp: string)
    requires Admissible(cfg, token, q, fp)
    ensures After(cfg, Issuing(token, q, fp)) == World(map[Sha256(token) := Used(q, fp, 0)], map[], map[], map[])
  {
    assert Issuing(token, q, fp) == [] + Issuing(token, q, fp);
    AfterOne(cfg, [], Issuing(token, q, fp)[0]);
  }

  /** An open socket with no connection; runs may have left it a session, a target and a slot. */
  predicate Unconnected(c: Socket) {
    c == NEW_SOCKET.(session := c.session, target := c.target, activeKey := c.activeKey)
  }

  lemma ConsumeOnce(cfg: Config, token: string, q: Request, fp: string, used: int)
    requires Admissible(cfg, token, q, fp) && 0 <= used < q.maxUses.value
    ensures var s := map[Sha256(token) := Used(q, fp, used)];
      Consume(s, token, RelayExpectation(cfg), 0) ==
        (map[Sha256(token) := Used(q, fp, used + 1)], Ok(Used(q, fp, used + 1)))
  {
    var s, r := map[Sha256(token) := Used(q, fp, used)], Used(q, fp, used + 1);
    assert CheckRecord(Used(q, fp, used), RelayExpectation(cfg), 0).None?;
    assert s[Sha256(token) := r] == map[Sha256(token) := r];
  }

  lemma AfterConnected(cfg: Config, actions: seq<Action>, w: World, id: nat, tcp: nat)
    requires After(cfg, actions) == w && id in w.runs && w.runs[id].socket in w.sockets
    requires w.runs[id].run.Some? && w.runs[id].run.value.AwaitingConnect?
    ensures After(cfg, actions + [ConnectReady(id, Some(tcp))]) ==
      w.(sockets := w.sockets[w.runs[id].socket := w.sockets[w.runs[id].socket].(tcp := Some(tcp), authed := true)],
         runs := w.runs[id := w.runs[id].(run := None)])
  {
    AfterOne(cfg, actions, ConnectReady(id, Some(tcp)));
  }

  lemma AfterClosed(cfg: Config, actions: seq<Action>, w: World, sid: nat)
    requires After(cfg, actions) == w && sid in w.sockets && !w.sockets[sid].closed
    ensures After(cfg, actions + [Close(sid)]) ==
      w.(slots := Release(w.slots, w.sockets[sid].activeKey),
         sockets := w.sockets[sid := w.sockets[sid].(closed := true, ws := Closed)])
  {
    AfterOne(cfg, actions, Close(sid));
  }

  lemma AfterFailed(cfg: Config, actions: seq<Action>, w: World, id: nat)
    requires After(cfg, actions) == w && id in w.runs && w.runs[id].socket in w.sockets
    requires w.runs[id].run.Some? && w.runs[id].run.value.AwaitingConnect? && !w.sockets[w.runs[id].socket].ws.Open?
    ensures After(cfg, actions + [ConnectReady(id, None)]) ==
      w.(slots := Release(w.slots, w.sockets[w.runs[id].socket].activeKey),
         sockets := w.sockets[w.runs[id].socket := w.sockets[w.runs[id].socket].(activeKey := None)],
         runs := w.runs[id := w.runs[id].(run := None)])
  {
    AfterOne(cfg, actions, ConnectReady(id, None));
  }

  /** A message starts a run that is granted a slot, while one is free. */
  lemma AfterAsking(
      cfg: Config, actions: seq<Action>, token: string, q: Request, fp: string, sid: nat, id: nat, used: int,
      slots: Slots, sockets: map<nat, Socket>, runs: map<nat, Pending>)
    requires Admissible(cfg, token, q, fp) && 0 <= used < q.maxUses.value
    requires After(cfg, actions) == World(map[Sha256(token) := Used(q, fp, used)], slots, sockets, runs)
    requires sid in sockets && id !in runs && Unconnected(sockets[sid])
    requires Count(slots, KeyOf(q, fp)) < cfg.maxConnectionsPerSession
    ensures After(cfg, actions + Asking(sid, id, token)) ==
      World(map[Sha256(token) := Used(q, fp, used + 1)], slots[KeyOf(q, fp) := Count(slots, KeyOf(q, fp)) + 1],
            sockets[sid := Granted(cfg, q, fp)], runs[id := Connecting(cfg, q, fp, token, sid, used + 1)])
  {
    var h := actions + [Message(sid, id, Auth(Some(token)), 0, false)];
    AfterMessage(cfg, actions, q, fp, token, sid, id, used);
    AfterGrant(cfg, h, q, fp, token, sid, id, used + 1, runs);
    assert actions + Asking(sid, id, token) == h + [TokenReady(id, 0)];
  }

  lemma AfterMessage(
      cfg: Config, actions: seq<Action>, q: Request, fp: string, token: string, sid: nat, id: nat, used: int)
    requires Admissible(cfg, token, q, fp) && 0 <= used < q.maxUses.value
    requires var w := After(cfg, actions);
      && w.records == map[Sha256(token) := Used(q, fp, used)]
      && sid in w.sockets && !w.sockets[sid].closed && !w.sockets[sid].authed && id !in w.runs
    ensures var w := After(cfg, actions);
      After(cfg, actions + [Message(sid, id, Auth(Some(token)), 0, false)]) ==
        w.(records := map[Sha256(token) := Used(q, fp, used + 1)],
           runs := w.runs[id := Resolving(q, fp, token, sid, used + 1)])
  {
    AfterOne(cfg, actions, Message(sid, id, Auth(Some(token)), 0, false));
    ReceivedAuth(cfg, After(cfg, actions), q, fp, token, sid, id, used);
  }

  lemma AfterGrant(
      cfg: Config, h: seq<Action>, q: Request, fp: string, token: string, sid: nat, id: nat, used: int,
      runs: map<nat, Pending>)
    requires Admissible(cfg, token, q, fp)
    requires var w := After(cfg, h);
      && sid in w.sockets && Unconnected(w.sockets[sid]) && w.runs == runs[id := Resolving(q, fp, token, sid, used)]
      && Count(w.slots, KeyOf(q, fp)) < cfg.maxConnectionsPerSession
    ensures var w := After(cfg, h);
      After(cfg, h + [TokenReady(id, 0)]) ==
        World(w.records, w.slots[KeyOf(q, fp) := Count(w.slots, KeyOf(q, fp)) + 1],
              w.sockets[sid := Granted(cfg, q, fp)], runs[id := Connecting(cfg, q, fp, token, sid, used)])
  {
    var w, p := After(cfg, h), Connecting(cfg, q, fp, token, sid, used);
    AfterOne(cfg, h, TokenReady(id, 0));
    GrantedSlot(cfg, w, q, fp, token, sid, id, used);
    assert w.runs[id := p] == runs[id := p];
  }

  lemma ReceivedAuth(cfg: Config, w: World, q: Request, fp: string, token: string, sid: nat, id: nat, used: int)
    requires Admissible(cfg, token, q, fp) && 0 <= used < q.maxUses.value
    requires w.records == map[Sha256(token) := Used(q, fp, used)]
    requires sid in w.sockets && !w.sockets[sid].closed && !w.sockets[sid].authed && id !in w.runs
    ensures Step(cfg, w, Message(sid, id, Auth(Some(token)), 0, false)).0 ==
      w.(records := map[Sha256(token) := Used(q, fp, used + 1)],
         runs := w.runs[id := Resolving(q, fp, token, sid, used + 1)])
  {
    ConsumeOnce(cfg, token, q, fp, used);
    assert w.sockets[sid := w.sockets[sid]] == w.sockets;
  }

  function Resolving(q: Request, fp: string, token: string, sid: nat, used: int): Pending
    requires CheckRequest(q).None?
  {
    Pending(sid, Some((Sha256(token), Used(q, fp, used))), Some(AwaitingToken(SessionOf(NewRecord(q, fp, 0)))))
  }

  lemma GrantedSlot(cfg: Config, w: World, q: Request, fp: string, token: string, sid: nat, id: nat, used: int)
    requires Admissible(cfg, token, q, fp) && sid in w.sockets && id in w.runs && Unconnected(w.sockets[sid])
    requires w.runs[id] == Resolving(q, fp, token, sid, used)
    requires Count(w.slots, KeyOf(q, fp)) < cfg.maxConnectionsPerSession
    ensures Step(cfg, w, TokenReady(id, 0)).0 ==
      w.(slots := w.slots[KeyOf(q, fp) := Count(w.slots, KeyOf(q, fp)) + 1],
         sockets := w.sockets[sid := Granted(cfg, q, fp)],
         runs := w.runs[id := Connecting(cfg, q, fp, token, sid, used)])
  {
    assert SessionOf(NewRecord(q, fp, 0)).session.expiresAt == q.ttlMs.value;
  }

  lemma AfterJoining(
      cfg: Config, actions: seq<Action>, token: string, q: Request, fp: string, sid: nat, id: nat, used: int,
      slots: Slots, sockets: map<nat, Socket>, runs: map<nat, Pending>)
    requires Admissible(cfg, token, q, fp) && 0 <= used < q.maxUses.value
    requires After(cfg, actions) == World(map[Sha256(token) := Used(q, fp, used)], slots, sockets, runs)
    requires sid !in sockets && id !in runs && Count(slots, KeyOf(q, fp)) < cfg.maxConnectionsPerSession
    ensures After(cfg, actions + Joining(sid, id, token)) ==
      World(map[Sha256(token) := Used(q, fp, used + 1)], slots[KeyOf(q, fp) := Count(slots, KeyOf(q, fp)) + 1],
            sockets[sid := Granted(cfg, q, fp)], runs[id := Connecting(cfg, q, fp, token, sid, used + 1)])
  {
    AfterOne(cfg, actions, Accept(sid));
    AfterAsking(cfg, actions + [Accept(sid)], token, q, fp, sid, id, used, slots, sockets[sid := NEW_SOCKET], runs);
    assert actions + Joining(sid, id, token) == actions + [Accept(sid)] + Asking(sid, id, token);
    assert sockets[sid := NEW_SOCKET][sid := Granted(cfg, q, fp)] == sockets[sid := Granted(cfg, q, fp)];
  }

  /** Socket 1 closes while its connect is pending, socket 2 joins, the connect of socket 1 fails, and socket 3
      joins. */
  function ClosingRun(token: string, q: Request, fp: string): seq<Action> {
    Issuing(token, q, fp) + Joining(1, 1, token) + [Close(1)] + Joining(2, 2, token) + [ConnectReady(2, Some(2))]
    + [ConnectReady(1, None)] + Joining(3, 3, token) + [ConnectReady(3, Some(3))]
  }

  lemma ClosingRunBegins(cfg: Config, token: string, q: Request, fp: string)
    requires Admissible(cfg, token, q, fp) && cfg.maxConnectionsPerSession == 1
    ensures var c := Granted(cfg, q, fp);
      After(cfg, Issuing(token, q, fp) + Joining(1, 1, token) + [Close(1)]) ==
        World(map[Sha256(token) := Used(q, fp, 1)], map[], map[1 := c.(closed := true, ws := Closed)],
              map[1 := Connecting(cfg, q, fp, token, 1, 1)])
  {
    var key, c, h := KeyOf(q, fp), Granted(cfg, q, fp), Issuing(token, q, fp);
    AfterIssuing(cfg, token, q, fp);
    AfterJoining(cfg, h, token, q, fp, 1, 1, 0, map[], map[], map[]);
    AfterClosed(cfg, h + Joining(1, 1, token), After(cfg, h + Joining(1, 1, token)), 1);
    assert Release(map[key := 1], c.activeKey) == map[];
  }

  lemma ClosingRunUnderpays(cfg: Config, token: string, q: Request, fp: string, h: seq<Action>)
    requires Admissible(cfg, token, q, fp) && cfg.maxConnectionsPerSession == 1
    requires After(cfg, h) == World(
               map[Sha256(token) := Used(q, fp, 1)], map[],
               map[1 := Granted(cfg, q, fp).(closed := true, ws := Closed)],
               map[1 := Connecting(cfg, q, fp, token, 1, 1)])
    ensures
      Underpays(After(cfg, h + Joining(2, 2, token) + [ConnectReady(2, Some(2))]), ConnectReady(1, None), KeyOf(q, fp))
    ensures var w := After(cfg, h + Joining(2, 2, token) + [ConnectReady(2, Some(2))] + [ConnectReady(1, None)]);
      && w.records == map[Sha256(token) := Used(q, fp, 2)] && w.slots == map[] && w.runs.Keys == {1, 2}
      && w.sockets.Keys == {1, 2} && w.sockets[1].closed
      && w.sockets[2] == Granted(cfg, q, fp).(tcp := Some(2), authed := true)
  {
    SecondJoins(cfg, token, q, fp, h);
    LateFailure(cfg, h + Joining(2, 2, token), KeyOf(q, fp));
  }

  lemma SecondJoins(cfg: Config, token: string, q: Request, fp: string, h: seq<Action>)
    requires Admissible(cfg, token, q, fp) && cfg.maxConnectionsPerSession == 1
    requires After(cfg, h) == World(
               map[Sha256(token) := Used(q, fp, 1)], map[],
               map[1 := Granted(cfg, q, fp).(closed := true, ws := Closed)],
               map[1 := Connecting(cfg, q, fp, token, 1, 1)])
    ensures var w := After(cfg, h + Joining(2, 2, token));
      && w.records == map[Sha256(token) := Used(q, fp, 2)] && w.slots == map[KeyOf(q, fp) := 1]
      && w.sockets.Keys == {1, 2} && w.runs.Keys == {1, 2}
      && w.sockets[1].closed && w.sockets[1].ws.Closed? && w.sockets[1].activeKey == Some(KeyOf(q, fp))
      && w.sockets[2] == Granted(cfg, q, fp)
      && (forall id <- w.runs :: w.runs[id].socket == id && AtConnect(w, id))
  {
    AfterJoining(cfg, h, token, q, fp, 2, 2, 1, map[], After(cfg, h).sockets, After(cfg, h).runs);
  }

  lemma LateFailure(cfg: Config, h: seq<Action>, key: string)
    requires var w := After(cfg, h);
      && w.slots == map[key := 1] && w.sockets.Keys == {1, 2} && w.runs.Keys == {1, 2}
      && w.sockets[1].closed && w.sockets[1].ws.Closed? && w.sockets[1].activeKey == Some(key)
      && !w.sockets[2].closed && w.sockets[2].activeKey == Some(key)
      && (forall id <- w.runs :: w.runs[id].socket == id && AtConnect(w, id))
    ensures Underpays(After(cfg, h + [ConnectReady(2, Some(2))]), ConnectReady(1, None), key)
    ensures var w, w' := After(cfg, h), After(cfg, h + [ConnectReady(2, Some(2))] + [ConnectReady(1, None)]);
      && w'.records == w.records && w'.slots == map[] && w'.runs.Keys == {1, 2}
      && w'.sockets.Keys == {1, 2} && w'.sockets[1].closed
      && w'.sockets[2] == w.sockets[2].(tcp := Some(2), authed := true)
  {
    var h2 := h + [ConnectReady(2, Some(2))];
    AfterConnected(cfg, h, After(cfg, h), 2, 2);
    AfterFailed(cfg, h2, After(cfg, h2), 1);
    assert Select(After(cfg, h2).sockets, Holds(key)) == {2};
    assert Release(map[key := 1], Some(key)) == map[];
  }

  lemma SplitAt<T>(front: seq<T>, x: T, rest: seq<T>)
    ensures var xs := front + [x] + rest; xs[..|front|] == front && xs[|front|] == x && |front| < |xs|
  {
  }

  /** The connect of socket 1 underpays when it fails. */
  lemma ClosingRunUnderpaysOnce(cfg: Config, token: string, q: Request, fp: string)
    requires Admissible(cfg, token, q, fp) && cfg.maxConnectionsPerSession == 1
    ensures UnderpaysAt(cfg, ClosingRun(token, q, fp), KeyOf(q, fp), 9)
  {
    var h := Issuing(token, q, fp) + Joining(1, 1, token) + [Close(1)];
    var front := h + Joining(2, 2, token) + [ConnectReady(2, Some(2))];
    var rest := Joining(3, 3, token) + [ConnectReady(3, Some(3))];
    ClosingRunBegins(cfg, token, q, fp);
    ClosingRunUnderpays(cfg, token, q, fp, h);
    SplitAt(front, ConnectReady(1, None), rest);
    assert ClosingRun(token, q, fp) == front + [ConnectReady(1, None)] + rest;
    assert |front| == 9;
  }

  /** At limit 1 two sockets of one session and alias are then live together. */
  lemma CloseDuringConnectBreaksLimit(cfg: Config, token: string, q: Request, fp: string)
    requires Admissible(cfg, token, q, fp) && cfg.maxConnectionsPerSession == 1
    ensures Select(After(cfg, ClosingRun(token, q, fp)).sockets, OpenLive(KeyOf(q, fp))) == {2, 3}
  {
    var h := Issuing(token, q, fp) + Joining(1, 1, token) + [Close(1)];
    var h2 := h + Joining(2, 2, token) + [ConnectReady(2, Some(2))] + [ConnectReady(1, None)];
    ClosingRunBegins(cfg, token, q, fp);
    ClosingRunUnderpays(cfg, token, q, fp, h);
    ThirdJoins(cfg, token, q, fp, h2);
    assert h2 + Joining(3, 3, token) + [ConnectReady(3, Some(3))] == ClosingRun(token, q, fp);
  }

  lemma ThirdJoins(cfg: Config, token: string, q: Request, fp: string, h: seq<Action>)
    requires Admissible(cfg, token, q, fp) && cfg.maxConnectionsPerSession == 1
    requires var w := After(cfg, h);
      && w.records == map[Sha256(token) := Used(q, fp, 2)] && w.slots == map[] && w.runs.Keys == {1, 2}
      && w.sockets.Keys == {1, 2} && w.sockets[1].closed
      && w.sockets[2] == Granted(cfg, q, fp).(tcp := Some(2), authed := true)
    ensures var w := After(cfg, h + Joining(3, 3, token) + [ConnectReady(3, Some(3))]);
      Select(w.sockets, OpenLive(KeyOf(q, fp))) == {2, 3}
  {
    var h3 := h + Joining(3, 3, token);
    AfterJoining(cfg, h, token, q, fp, 3, 3, 2, map[], After(cfg, h).sockets, After(cfg, h).runs);
    AfterConnected(cfg, h3, After(cfg, h3), 3, 3);
  }

  /** Two auth messages of one socket are both granted a slot and both connect; then the socket closes. */
  function OverlappingRun(token: string, q: Request, fp: string): seq<Action> {
    Issuing(token, q, fp) + Joining(1, 1, token) + Asking(1, 2, token) + [ConnectReady(1, Some(1))]
    + [ConnectReady(2, Some(2))] + [Close(1)]
  }

  /** One slot then stays taken with no socket holding it. */
  lemma OverlappingAuthLeaksSlot(cfg: Config, token: string, q: Request, fp: string)
    requires Admissible(cfg, token, q, fp) && cfg.maxConnectionsPerSession >= 2
    ensures var w := After(cfg, OverlappingRun(token, q, fp));
      Count(w.slots, KeyOf(q, fp)) == 1 && Holders(w, KeyOf(q, fp)) == 0
  {
    var key, c, h := KeyOf(q, fp), Granted(cfg, q, fp), Issuing(token, q, fp);
    AfterIssuing(cfg, token, q, fp);
    AfterJoining(cfg, h, token, q, fp, 1, 1, 0, map[], map[], map[]);
    h := h + Joining(1, 1, token);
    AfterAsking(cfg, h, token, q, fp, 1, 2, 1, map[key := 1], map[1 := c], After(cfg, h).runs);
    h := h + Asking(1, 2, token);
    OverlappingRunEnds(cfg, h, key, c);
  }

  /** That run only leaks: no step of it underpays, so the limit holds throughout. */
  lemma OverlappingRunNeverUnderpays(cfg: Config, token: string, q: Request, fp: string, key: string)
    ensures var run := OverlappingRun(token, q, fp);
      forall n: nat | n < |run| :: !UnderpaysAt(cfg, run, key, n) && !OverfillsAt(cfg, run, key, n)
  {
    var run := OverlappingRun(token, q, fp);
    assert forall n: nat | n < |run| :: !(run[n].ConnectReady? && run[n].connected.None?);
    HoldersWithinLimit(cfg, run, key);
  }

  lemma OverlappingRunEnds(cfg: Config, h: seq<Action>, key: string, c: Socket)
    requires var w := After(cfg, h);
      && w.sockets == map[1 := c] && c.activeKey == Some(key) && !c.closed && w.slots == map[key := 2]
      && w.runs.Keys == {1, 2}
      && forall id <- w.runs :: w.runs[id].socket == 1 && w.runs[id].run.Some? && w.runs[id].run.value.AwaitingConnect?
    ensures var w := After(cfg, h + [ConnectReady(1, Some(1))] + [ConnectReady(2, Some(2))] + [Close(1)]);
      Count(w.slots, key) == 1 && Holders(w, key) == 0
  {
    var h1 := h + [ConnectReady(1, Some(1))];
    var h2 := h1 + [ConnectReady(2, Some(2))];
    AfterConnected(cfg, h, After(cfg, h), 1, 1);
    AfterConnected(cfg, h1, After(cfg, h1), 2, 2);
    AfterClosed(cfg, h2, After(cfg, h2), 1);
    assert Select(After(cfg, h2 + [Close(1)]).sockets, Holds(key)) == {};
  }

  /** Session and alias determine the slot key and are determined by it, as an alias has no colon. */
  lemma SlotKeysAreInjective(a: Session, b: Session)
    requires SlotKey(a).Some? && SlotKey(a) == SlotKey(b)
    requires ':' !in a.hpc && ':' !in b.hpc
    ensures a.sessionId == b.sessionId && a.hpc == b.hpc
  {
    var key := SlotKey(a).value;
    var n, m := |a.sessionId.value|, |b.sessionId.value|;
    assert key == a.sessionId.value + ":" + a.hpc == b.sessionId.value + ":" + b.hpc;
    assert key[n + 1..] == a.hpc && key[m + 1..] == b.hpc;
    assert key[..n] == a.sessionId.value && key[..m] == b.sessionId.value;
    assert key[n] == ':' && key[m] == ':';
  }
}
