/** The relay with any number of sockets and of overlapping handler runs, composed with the memory
    registry in consume mode. A run is one sequence of steps taken in any order the event loop allows. */
module RelayWorld {
  import opened Wrappers
  import opened Tokens
  import opened TokenRegistry
  import opened TokenHistories
  import opened Relay
  import opened Runs
  import UseLog

  /** A handler run: its socket, the record it consumed and what it waits for (None once it is over). */
  datatype Pending = Pending(socket: nat, spent: Option<(Digest, Record)>, run: Option<Run>)

  datatype World = World(records: Records, slots: Slots, sockets: map<nat, Socket>, runs: map<nat, Pending>)

  const START := World(map[], map[], map[], map[])

  /** `ShutDown` is `safeClose` called by a timer or by the TCP connection; `Close` is the close handler. */
  datatype Action =
    | Accept(socket: nat)
    | Message(socket: nat, id: nat, frame: Frame, now: int, tcpDestroyed: bool)
    | TokenReady(id: nat, now: int)
    | ConnectReady(id: nat, connected: Option<nat>)
    | ShutDown(socket: nat, reason: CloseReason)
    | Close(socket: nat)
    | Registry(call: Call)

  /** `UsedElsewhere` is a consume by another caller of the registry. */
  datatype Event =
    | Issued(key: Digest, maxUses: int)
    | UsedElsewhere(key: Digest)
    | TokenConsumed(id: nat, key: Digest, record: Record)
    | ConnectStarted(id: nat, token: Option<Digest>, target: Target)
    | Quiet

  /** The record that `resolveRelayToken` consumes, if any. */
  function Spent(cfg: Config, s: Records, token: Option<string>, now: int): Option<(Digest, Record)> {
    if token.None? || |token.value| < MIN_RELAY_TOKEN_LENGTH then None
    else match Consume(s, token.value, RelayExpectation(cfg), now)
      case (_, Err(_)) => None
      case (_, Ok(r)) => Some((Sha256(token.value), r))
  }

  /** Run `id` is suspended at its first await. */
  predicate AtToken(w: World, id: nat) {
    && id in w.runs && w.runs[id].socket in w.sockets
    && w.runs[id].run.Some? && w.runs[id].run.value.AwaitingToken?
  }

  /** Run `id` is suspended at its second await. */
  predicate AtConnect(w: World, id: nat) {
    && id in w.runs && w.runs[id].socket in w.sockets
    && w.runs[id].run.Some? && w.runs[id].run.value.AwaitingConnect?
  }

  ghost function Step(cfg: Config, w: World, a: Action): (World, Event) {
    match a
    case Accept(sid) =>
      if sid in w.sockets then (w, Quiet) else (w.(sockets := w.sockets[sid := NEW_SOCKET]), Quiet)
    case Message(sid, id, f, now, tcpDestroyed) =>
      if sid !in w.sockets || w.sockets[sid].closed || id in w.runs then (w, Quiet)
      else if w.sockets[sid].authed then
        (w.(sockets := w.sockets[sid := Forward(w.sockets[sid], f, tcpDestroyed).0]), Quiet)
      else
        var (records, c, run) := BeginAuth(cfg, w.records, w.sockets[sid], f, now);
        var spent := if f.Auth? then Spent(cfg, w.records, f.relayToken, now) else None;
        (w.(records := records, sockets := w.sockets[sid := c], runs := w.runs[id := Pending(sid, spent, run)]),
         if spent.Some? then TokenConsumed(id, spent.value.0, spent.value.1) else Quiet)
    case TokenReady(id, now) =>
      if !AtToken(w, id) then (w, Quiet)
      else
        var p := w.runs[id];
        var (slots, c, run) := ResumeToken(cfg, w.slots, w.sockets[p.socket], p.run.value.resolution, now);
        (w.(slots := slots, sockets := w.sockets[p.socket := c], runs := w.runs[id := p.(run := run)]),
         if run.Some? && run.value.AwaitingConnect?
         then ConnectStarted(id, if p.spent.Some? then Some(p.spent.value.0) else None, run.value.target)
         else Quiet)
    case ConnectReady(id, connected) =>
      if !AtConnect(w, id) then (w, Quiet)
      else
        var p := w.runs[id];
        var (slots, c) := ResumeConnect(w.slots, w.sockets[p.socket], connected);
        (w.(slots := slots, sockets := w.sockets[p.socket := c], runs := w.runs[id := p.(run := None)]), Quiet)
    case ShutDown(sid, reason) =>
      if sid !in w.sockets then (w, Quiet)
      else (w.(sockets := w.sockets[sid := Shut(w.sockets[sid], reason)]), Quiet)
    case Close(sid) =>
      if sid !in w.sockets then (w, Quiet)
      else
        var (slots, c) := OnClose(w.slots, w.sockets[sid]);
        (w.(slots := slots, sockets := w.sockets[sid := c]), Quiet)
    case Registry(c) =>
      var (records, v) := Apply(w.records, c);
      (w.(records := records),
       if v.None? then Quiet
       else match c.op
         case IssueOp(token, _, _) => Issued(Sha256(token), v.value.maxUses)
         case ConsumeOp(token, _) => UsedElsewhere(Sha256(token))
         case _ => Quiet)
  }

  ghost function Relaying(cfg: Config): Machine<World, Action, Event> {
    (w: World, a: Action, _: nat) => Step(cfg, w, a)
  }

  ghost function After(cfg: Config, actions: seq<Action>): World {
    StateAfter(Relaying(cfg), START, actions)
  }

  ghost function Trace(cfg: Config, actions: seq<Action>): (log: seq<Event>)
    ensures |log| == |actions|
  {
    LogOf(Relaying(cfg), START, actions)
  }

  // ------------------------------------------------------------------ counting members of a map

  function Select<T>(m: map<nat, T>, p: T -> bool): set<nat> {
    set x | x in m && p(m[x])
  }

  lemma SelectUpdate<T>(m: map<nat, T>, k: nat, v: T, p: T -> bool)
    ensures |Select(m[k := v], p)|
         == |Select(m, p)| - (if k in m && p(m[k]) then 1 else 0) + (if p(v) then 1 else 0)
  {
    var a, b := Select(m, p), Select(m[k := v], p);
    assert b - {k} == a - {k};
    assert |a - {k}| == |a| - (if k in a then 1 else 0);
    assert |b - {k}| == |b| - (if k in b then 1 else 0);
  }

  // ------------------------------------------------------------------ connects per token

  function TotalBudget(log: seq<Event>, key: Digest): int {
    if log == [] then 0
    else
      var rest := TotalBudget(Init(log), key);
      match Last(log)
      case Issued(k, m) => if k == key then rest + m else rest
      case _ => rest
  }

  function Connects(log: seq<Event>, key: Digest): nat {
    if log == [] then 0
    else
      var rest := Connects(Init(log), key);
      match Last(log)
      case ConnectStarted(_, k, _) => if k == Some(key) then rest + 1 else rest
      case _ => rest
  }

  /** A run that has consumed this token and not yet started a connect. */
  function WaitsWith(key: Digest): Pending -> bool {
    (p: Pending) => p.spent.Some? && p.spent.value.0 == key && p.run.Some? && p.run.value.AwaitingToken?
  }

  function UsesLeft(s: Records, key: Digest): int {
    if key in s then s[key].maxUses - s[key].used else 0
  }

  function IssuedIn(e: Event, key: Digest): int {
    if e.Issued? && e.key == key then e.maxUses else 0
  }

  function ConsumedIn(e: Event, key: Digest): int {
    if e.TokenConsumed? && e.key == key then 1 else 0
  }

  function ConnectedIn(e: Event, key: Digest): int {
    if e.ConnectStarted? && e.token == Some(key) then 1 else 0
  }

  lemma LogStep(log: seq<Event>, e: Event, key: Digest)
    ensures TotalBudget(log + [e], key) == TotalBudget(log, key) + IssuedIn(e, key)
    ensures Connects(log + [e], key) == Connects(log, key) + ConnectedIn(e, key)
  {
    assert Init(log + [e]) == log && Last(log + [e]) == e;
  }

  lemma UsesStep(cfg: Config, w: World, a: Action, key: Digest)
    requires 0 <= UsesLeft(w.records, key)
    ensures var (w', e) := Step(cfg, w, a);
      0 <= UsesLeft(w'.records, key) <= UsesLeft(w.records, key) + IssuedIn(e, key) - ConsumedIn(e, key)
  {
    if a.Registry? {
      CallUses(w.records, a.call, key);
    }
  }

  /** A registry call raises the uses left of a token only by issuing it. */
  lemma CallUses(s: Records, c: Call, key: Digest)
    requires 0 <= UsesLeft(s, key)
    ensures var (s', v) := Apply(s, c);
      var granted := if c.op.IssueOp? && v.Some? && Sha256(c.op.token) == key then v.value.maxUses else 0;
      0 <= UsesLeft(s', key) <= UsesLeft(s, key) + granted
  {
  }

  lemma WaitingStep(cfg: Config, w: World, a: Action, key: Digest)
    ensures var (w', e) := Step(cfg, w, a);
      |Select(w'.runs, WaitsWith(key))| <= |Select(w.runs, WaitsWith(key))| + ConsumedIn(e, key) - ConnectedIn(e, key)
  {
    var w' := Step(cfg, w, a).0;
    if (a.Message? || a.TokenReady? || a.ConnectReady?) && w'.runs != w.runs {
      SelectUpdate(w.runs, a.id, w'.runs[a.id], WaitsWith(key));
    }
  }

  /** Connects so far, runs that may still connect, and uses still in the registry share one budget. */
  ghost predicate WithinBudget(w: World, log: seq<Event>, key: Digest) {
    && 0 <= UsesLeft(w.records, key)
    && Connects(log, key) + |Select(w.runs, WaitsWith(key))| + UsesLeft(w.records, key) <= TotalBudget(log, key)
  }

  lemma {:induction false} RunsStayWithinBudget(cfg: Config, actions: seq<Action>, key: Digest)
    ensures WithinBudget(After(cfg, actions), Trace(cfg, actions), key)
  {
    if actions == [] {
      assert Select(START.runs, WaitsWith(key)) == {};
    } else {
      var w, log, a := After(cfg, Init(actions)), Trace(cfg, Init(actions)), Last(actions);
      RunsStayWithinBudget(cfg, Init(actions), key);
      UsesStep(cfg, w, a, key);
      WaitingStep(cfg, w, a, key);
      LogStep(log, Step(cfg, w, a).1, key);
    }
  }

  /** Over all runs, the TCP connects started with a token number at most the uses it was issued with;
      for a value issued once that is its `maxUses`. */
  lemma ConnectsWithinMaxUses(cfg: Config, actions: seq<Action>, key: Digest)
    ensures Connects(Trace(cfg, actions), key) <= TotalBudget(Trace(cfg, actions), key)
  {
    RunsStayWithinBudget(cfg, actions, key);
  }

  predicate IssuesKey(log: seq<Event>, key: Digest) {
    exists e <- log :: e.Issued? && e.key == key
  }

  lemma {:induction false} NoIssueNoBudget(log: seq<Event>, key: Digest)
    requires !IssuesKey(log, key)
    ensures TotalBudget(log, key) == 0
  {
    if log != [] {
      assert Last(log) in log;
      NoIssueNoBudget(Init(log), key);
    }
  }

  lemma {:induction false} SingleIssueBudget(log: seq<Event>, i: nat, key: Digest)
    requires i < |log| && log[i].Issued? && log[i].key == key
    requires !IssuesKey(log[..i], key) && !IssuesKey(log[i + 1..], key)
    ensures TotalBudget(log, key) == log[i].maxUses
  {
    if i == |log| - 1 {
      NoIssueNoBudget(Init(log), key);
    } else {
      assert Last(log) in log[i + 1..];
      assert Init(log)[..i] == log[..i] && Init(log)[i + 1..] == Init(log[i + 1..]);
      SingleIssueBudget(Init(log), i, key);
    }
  }

  /** A token issued once opens at most `maxUses` TCP connections, over the whole run. */
  lemma ConnectsOfOneIssue(cfg: Config, actions: seq<Action>, key: Digest, i: nat)
    requires i < |actions| && Trace(cfg, actions)[i].Issued? && Trace(cfg, actions)[i].key == key
    requires !IssuesKey(Trace(cfg, actions)[..i], key) && !IssuesKey(Trace(cfg, actions)[i + 1..], key)
    ensures Connects(Trace(cfg, actions), key) <= Trace(cfg, actions)[i].maxUses
  {
    ConnectsWithinMaxUses(cfg, actions, key);
    SingleIssueBudget(Trace(cfg, actions), i, key);
  }

  // ------------------------------------------------------------------ connects per issue

  /** What an event says about uses. */
  function UseOf(e: Event): UseLog.Event {
    match e
    case Issued(key, maxUses) => UseLog.Issued(key, maxUses)
    case UsedElsewhere(key) => UseLog.Accepted(key)
    case TokenConsumed(_, key, _) => UseLog.Accepted(key)
    case _ => UseLog.Other
  }

  function UsesOf(log: seq<Event>): (uses: seq<UseLog.Event>)
    ensures |uses| == |log| && forall i | 0 <= i < |log| :: uses[i] == UseOf(log[i])
  {
    seq(|log|, i requires 0 <= i < |log| => UseOf(log[i]))
  }

  lemma AuthAccounts(cfg: Config, s: Records, c: Socket, f: Frame, now: int)
    ensures var spent := if f.Auth? then Spent(cfg, s, f.relayToken, now) else None;
      UseLog.Accounts(s, BeginAuth(cfg, s, c, f, now).0,
                      if spent.Some? then UseLog.Accepted(spent.value.0) else UseLog.Other)
  {
    if f.Auth? && f.relayToken.Some? {
      UseLog.ConsumeAccounts(s, f.relayToken.value, RelayExpectation(cfg), now);
    }
  }

  lemma StepAccounts(cfg: Config, w: World, a: Action)
    ensures var (w', e) := Step(cfg, w, a); UseLog.Accounts(w.records, w'.records, UseOf(e))
  {
    if a.Registry? {
      UseLog.CallAccounts(w.records, a.call);
    } else if a.Message? && a.socket in w.sockets {
      AuthAccounts(cfg, w.records, w.sockets[a.socket], a.frame, a.now);
    }
  }

  lemma {:induction false} RunIsExplained(cfg: Config, actions: seq<Action>)
    ensures UseLog.Explains(UsesOf(Trace(cfg, actions)), After(cfg, actions).records)
  {
    if actions != [] {
      var w, log, a := After(cfg, Init(actions)), Trace(cfg, Init(actions)), Last(actions);
      var (w', e) := Step(cfg, w, a);
      RunIsExplained(cfg, Init(actions));
      StepAccounts(cfg, w, a);
      UseLog.AccountingExplains(UsesOf(log), w.records, w'.records, UseOf(e));
      assert UsesOf(log + [e]) == UsesOf(log) + [UseOf(e)];
    }
  }

  /** The runs that consumed this token. */
  function Consumers(log: seq<Event>, key: Digest): set<nat> {
    set e <- log | e.TokenConsumed? && e.key == key :: e.id
  }

  lemma {:induction false} ConsumersAreCounted(log: seq<Event>, key: Digest)
    ensures |Consumers(log, key)| <= UseLog.CountAccepted(UsesOf(log), key)
  {
    if log == [] {
      assert Consumers(log, key) == {};
    } else {
      var e, front := Last(log), Init(log);
      assert log == front + [e];
      assert Init(UsesOf(log)) == UsesOf(front);
      ConsumersAreCounted(front, key);
      if e.TokenConsumed? && e.key == key {
        assert Consumers(log, key) == Consumers(front, key) + {e.id};
      } else {
        assert Consumers(log, key) == Consumers(front, key);
      }
    }
  }

  /** Connects started by these runs. */
  function ConnectsBy(log: seq<Event>, ids: set<nat>): nat {
    if log == [] then 0
    else ConnectsBy(Init(log), ids) + (if Last(log).ConnectStarted? && Last(log).id in ids then 1 else 0)
  }

  function Starters(log: seq<Event>): set<nat> {
    set e <- log | e.ConnectStarted? :: e.id
  }

  /** A run that has started a connect no longer waits for its token. */
  ghost predicate StartersHaveMovedOn(w: World, log: seq<Event>) {
    forall id <- Starters(log) :: id in w.runs && !(w.runs[id].run.Some? && w.runs[id].run.value.AwaitingToken?)
  }

  lemma StartersStep(log: seq<Event>, e: Event)
    ensures Starters(log + [e]) == Starters(log) + (if e.ConnectStarted? then {e.id} else {})
  {
    forall id ensures id in Starters(log + [e]) <==> id in Starters(log) || (e.ConnectStarted? && e.id == id) {
      if id in Starters(log) {
        var x :| x in log && x.ConnectStarted? && x.id == id;
        assert x in log + [e];
      }
      assert e in log + [e];
    }
  }

  lemma MovingOn(cfg: Config, w: World, a: Action, id: nat)
    requires id in w.runs && !(w.runs[id].run.Some? && w.runs[id].run.value.AwaitingToken?)
    ensures var (w', e) := Step(cfg, w, a);
      && id in w'.runs && !(w'.runs[id].run.Some? && w'.runs[id].run.value.AwaitingToken?)
      && (e.ConnectStarted? ==> e.id != id)
  {
  }

  lemma StartingRun(cfg: Config, w: World, a: Action)
    requires Step(cfg, w, a).1.ConnectStarted?
    ensures var (w', e) := Step(cfg, w, a);
      e.id in w'.runs && !(w'.runs[e.id].run.Some? && w'.runs[e.id].run.value.AwaitingToken?)
  {
  }

  lemma MovedOnStep(cfg: Config, w: World, log: seq<Event>, a: Action)
    requires StartersHaveMovedOn(w, log)
    ensures var (w', e) := Step(cfg, w, a);
      StartersHaveMovedOn(w', log + [e]) && (e.ConnectStarted? ==> e.id !in Starters(log))
  {
    var (w', e) := Step(cfg, w, a);
    StartersStep(log, e);
    forall id <- Starters(log) {
      MovingOn(cfg, w, a, id);
    }
    if e.ConnectStarted? {
      StartingRun(cfg, w, a);
    }
  }

  lemma ConnectsStep(log: seq<Event>, e: Event, ids: set<nat>)
    requires ConnectsBy(log, ids) == |ids * Starters(log)| && (e.ConnectStarted? ==> e.id !in Starters(log))
    ensures ConnectsBy(log + [e], ids) == |ids * Starters(log + [e])|
  {
    StartersStep(log, e);
    assert Init(log + [e]) == log && Last(log + [e]) == e;
    if e.ConnectStarted? {
      OneMoreOf(ids, Starters(log), e.id);
    } else {
      assert Starters(log + [e]) == Starters(log);
    }
  }

  lemma OneMoreOf(ids: set<nat>, xs: set<nat>, x: nat)
    requires x !in xs
    ensures |ids * (xs + {x})| == |ids * xs| + (if x in ids then 1 else 0)
  {
    var both := ids * xs;
    if x in ids {
      assert ids * (xs + {x}) == both + {x};
    } else {
      assert ids * (xs + {x}) == both;
    }
  }

  /** Every run starts at most one connect. */
  lemma {:induction false} RunsConnectOnce(cfg: Config, actions: seq<Action>, ids: set<nat>)
    ensures StartersHaveMovedOn(After(cfg, actions), Trace(cfg, actions))
    ensures ConnectsBy(Trace(cfg, actions), ids) == |ids * Starters(Trace(cfg, actions))|
  {
    if actions == [] {
      assert ids * Starters([]) == {};
    } else {
      var w, log, a := After(cfg, Init(actions)), Trace(cfg, Init(actions)), Last(actions);
      RunsConnectOnce(cfg, Init(actions), ids);
      MovedOnStep(cfg, w, log, a);
      ConnectsStep(log, Step(cfg, w, a).1, ids);
    }
  }

  /** Each issue has its own budget: the runs that consumed the token after an issue of it and before the next
      start at most `maxUses` connects between them, whenever they start them. */
  lemma ConnectsOfEachIssue(cfg: Config, actions: seq<Action>, key: Digest, i: nat, j: nat)
    requires i < j <= |actions|
    requires Trace(cfg, actions)[i].Issued? && Trace(cfg, actions)[i].key == key
    requires !IssuesKey(Trace(cfg, actions)[i + 1..j], key)
    ensures var log := Trace(cfg, actions); ConnectsBy(log, Consumers(log[i + 1..j], key)) <= log[i].maxUses
  {
    var log := Trace(cfg, actions);
    var ids := Consumers(log[i + 1..j], key);
    RunsConnectOnce(cfg, actions, ids);
    assert ids == ids * Starters(log) + (ids - Starters(log));
    ConsumersAreCounted(log[i + 1..j], key);
    LogOfPrefix(Relaying(cfg), START, actions, j);
    RunIsExplained(cfg, actions[..j]);
    UsesWithinIssue(log[..j], key, i);
    assert log[..j][i + 1..] == log[i + 1..j];
    assert UseLog.Uses(UsesOf(log[..j]), key) <= UseLog.Budget(UsesOf(log[..j]), key);
  }

  lemma NoIssueToo(log: seq<Event>, key: Digest)
    requires !IssuesKey(log, key)
    ensures !UseLog.IssuesIn(UsesOf(log), key)
  {
    forall n | 0 <= n < |log| ensures !(UsesOf(log)[n].Issued? && UsesOf(log)[n].key == key) {
      assert log[n] in log;
    }
  }

  lemma UsesWithinIssue(log: seq<Event>, key: Digest, i: nat)
    requires i < |log| && log[i].Issued? && log[i].key == key && !IssuesKey(log[i + 1..], key)
    ensures UseLog.Uses(UsesOf(log), key) == UseLog.CountAccepted(UsesOf(log[i + 1..]), key)
    ensures UseLog.Budget(UsesOf(log), key) == log[i].maxUses
  {
    NoIssueToo(log[i + 1..], key);
    assert UsesOf(log)[i + 1..] == UsesOf(log[i + 1..]);
    UseLog.UsesSinceIssue(UsesOf(log), i, key);
  }

  // ------------------------------------------------------------------ which tokens are consumed

  /** A message consumes a token exactly when it fits. It spends one use of that record and nothing else, and the
      run it starts carries the record's session. */
  lemma ConsumesExactly(cfg: Config, w: World, sid: nat, id: nat, f: Frame, now: int, tcpDestroyed: bool)
    requires sid in w.sockets && !w.sockets[sid].closed && !w.sockets[sid].authed && id !in w.runs
    ensures var (w', e) := Step(cfg, w, Message(sid, id, f, now, tcpDestroyed));
      && (e.TokenConsumed? <==> Fits(cfg, w.records, f, now))
      && (e.TokenConsumed? ==>
            var d := Sha256(f.relayToken.value);
            var r := w.records[d].(used := w.records[d].used + 1);
            && e == TokenConsumed(id, d, r) && w'.records == w.records[d := r]
            && w'.runs[id].run == Some(AwaitingToken(SessionOf(r))))
      && (!e.TokenConsumed? ==> w'.records == w.records)
  {
    if f.Auth? && f.relayToken.Some? {
      GrantedExactly(w.records, f.relayToken.value, RelayExpectation(cfg), now);
    }
  }

  lemma ConsumedFits(cfg: Config, w: World, a: Action)
    ensures var e := Step(cfg, w, a).1; e.TokenConsumed? ==> FitsRelay(cfg, e.record)
  {
    if a.Message? && Step(cfg, w, a).1.TokenConsumed? {
      ConsumesExactly(cfg, w, a.socket, a.id, a.frame, a.now, a.tcpDestroyed);
    }
  }

  /** Over all runs, every consumed record is a relay record of the configured session, alias and origin. */
  lemma ConsumedTokensFit(cfg: Config, actions: seq<Action>, i: nat)
    requires i < |actions| && Trace(cfg, actions)[i].TokenConsumed?
    ensures FitsRelay(cfg, Trace(cfg, actions)[i].record)
  {
    EventAt(Relaying(cfg), START, actions, i);
    ConsumedFits(cfg, After(cfg, actions[..i]), actions[i]);
  }

  // ------------------------------------------------------------------ every connect goes where its token says

  ghost predicate GroundedRun(p: Pending, id: nat, log: seq<Event>) {
    && (p.spent.Some? ==> TokenConsumed(id, p.spent.value.0, p.spent.value.1) in log)
    && (p.run.Some? && p.run.value.AwaitingToken? && p.run.value.resolution.Resolved? ==>
          p.spent.Some? && p.run.value.resolution == SessionOf(p.spent.value.1))
  }

  ghost predicate Grounded(w: World, log: seq<Event>) {
    && (forall id <- w.runs :: GroundedRun(w.runs[id], id, log))
    && (forall e <- log | e.TokenConsumed? :: e.id in w.runs)
  }

  lemma GroundedStep(cfg: Config, w: World, log: seq<Event>, a: Action)
    requires Grounded(w, log)
    ensures Grounded(Step(cfg, w, a).0, log + [Step(cfg, w, a).1])
  {
    var (w', event) := Step(cfg, w, a);
    var log' := log + [event];
    assert forall e :: e in log' <==> e in log || e == event;
    if a.Message? || a.TokenReady? || a.ConnectReady? {
      assert w'.runs == w.runs || w'.runs == w.runs[a.id := w'.runs[a.id]];
    }
    forall id <- w'.runs ensures GroundedRun(w'.runs[id], id, log') {
      assert id in w.runs ==> GroundedRun(w.runs[id], id, log);
    }
  }

  lemma {:induction false} RunsAreGrounded(cfg: Config, actions: seq<Action>)
    ensures Grounded(After(cfg, actions), Trace(cfg, actions))
  {
    if actions != [] {
      RunsAreGrounded(cfg, Init(actions));
      GroundedStep(cfg, After(cfg, Init(actions)), Trace(cfg, Init(actions)), Last(actions));
    }
  }

  lemma StartedConnect(cfg: Config, w: World, log: seq<Event>, a: Action)
    requires Grounded(w, log) && Step(cfg, w, a).1.ConnectStarted?
    ensures var e := Step(cfg, w, a).1;
      && e.id in w.runs && w.runs[e.id].spent.Some?
      && var (key, record) := w.runs[e.id].spent.value;
      && TokenConsumed(e.id, key, record) in log && e.token == Some(key)
      && RecordAlias(record).Some? && e.target.alias == RecordAlias(record).value
      && e.target.alias in cfg.allowedHosts
      && cfg.allowedHosts[e.target.alias] == Usable(e.target.host, e.target.port)
  {
    var record := w.runs[a.id].spent.value.1;
    var names := [record.hpc, Member(record.metadata, "hpc"), Member(record.metadata, "alias")];
    Aliases.LowerIsStable(FirstTruthy(names).value);
  }

  /** Every TCP connect goes to the allowlist entry of the alias named by the record that the same
      handler run consumed earlier, whatever other runs wrote to the socket's shared variables; and that record
      fits the relay. */
  lemma ConnectsFollowTheirToken(cfg: Config, actions: seq<Action>, i: nat)
    requires i < |actions| && Trace(cfg, actions)[i].ConnectStarted?
    ensures var log := Trace(cfg, actions);
      exists j: nat ::
        && j < i && log[j].TokenConsumed? && log[j].id == log[i].id && log[i].token == Some(log[j].key)
        && RecordAlias(log[j].record) == Some(log[i].target.alias) && FitsRelay(cfg, log[j].record)
        && log[i].target.alias in cfg.allowedHosts
        && cfg.allowedHosts[log[i].target.alias] == Usable(log[i].target.host, log[i].target.port)
  {
    var w := After(cfg, actions[..i]);
    EventAt(Relaying(cfg), START, actions, i);
    RunsAreGrounded(cfg, actions[..i]);
    StartedConnect(cfg, w, Trace(cfg, actions[..i]), actions[i]);
    var (key, record) := w.runs[Trace(cfg, actions)[i].id].spent.value;
    var j :| 0 <= j < i && Trace(cfg, actions[..i])[j] == TokenConsumed(Trace(cfg, actions)[i].id, key, record);
    assert Trace(cfg, actions)[j] == TokenConsumed(Trace(cfg, actions)[i].id, key, record);
    ConsumedTokensFit(cfg, actions, j);
  }

  /** A handler run consumes at most one token, so the record above is the only one. */
  lemma RunsConsumeOnce(cfg: Config, actions: seq<Action>, i: nat, j: nat)
    requires i <= j < |actions|
    requires Trace(cfg, actions)[i].TokenConsumed? && Trace(cfg, actions)[j].TokenConsumed?
    requires Trace(cfg, actions)[i].id == Trace(cfg, actions)[j].id
    ensures i == j
  {
    if i < j {
      RunsAreGrounded(cfg, actions[..j]);
      EventAt(Relaying(cfg), START, actions, j);
      assert Trace(cfg, actions)[i] == Trace(cfg, actions[..j])[i];
      assert Trace(cfg, actions)[i].id in After(cfg, actions[..j]).runs;
      ConsumeStartsRun(cfg, After(cfg, actions[..j]), actions[j]);
    }
  }

  lemma ConsumeStartsRun(cfg: Config, w: World, a: Action)
    requires Step(cfg, w, a).1.TokenConsumed?
    ensures Step(cfg, w, a).1.id !in w.runs
  {
  }
}
