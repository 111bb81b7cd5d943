/** Workload tokens: a check-then-act layer over the memory registry. `consumeWorkloadToken` first awaits
    a validate and then a consume, and other calls may run in between. */
module Workload {
  import opened Wrappers
  import opened Tokens
  import opened TokenRegistry
  import opened TokenHistories
  import opened Runs
  import opened UseLog
  import opened Aliases

  const PAYLOAD_IDS: set<string> := {"gpu_diagnostics_v1", "cpu_memory_diagnostics_v1", "gams_chat_v1"}
  const SESSION_PREFIX := "sess_"
  const PAYLOAD_KEY := "payloadId"
  const JOB_KEY := "jobId"

  datatype Worker = Worker(sessionId: string, hpc: string, payloadId: string, jobId: Option<string>)

  predicate IsSessionId(s: string) {
    SESSION_PREFIX <= s && 8 <= |s| - |SESSION_PREFIX| <= 128 && forall c <- s[|SESSION_PREFIX|..] :: IsWordChar(c)
  }

  predicate IsJobId(s: string) {
    1 <= |s| <= 32 && forall c <- s :: IsDigit(c)
  }

  /** An absent or empty job id binds nothing. */
  function SafeJobId(jobId: Option<string>): Option<string> {
    if jobId == Some("") then None else jobId
  }

  predicate JobIdFits(jobId: Option<string>) {
    SafeJobId(jobId).Some? ==> IsJobId(jobId.value)
  }

  /** The first validator that rejects, in the order of `expectedBinding`. */
  function CheckWorker(w: Worker): Option<Code> {
    if w.payloadId !in PAYLOAD_IDS then Some(InvalidPayloadId)
    else if !JobIdFits(w.jobId) then Some(InvalidJobId)
    else if !IsSessionId(w.sessionId) then Some(InvalidSessionId)
    else if !IsAlias(w.hpc) then Some(InvalidHpc)
    else None
  }

  function WorkerMetadata(payloadId: string, jobId: Option<string>): map<string, string> {
    map[PAYLOAD_KEY := payloadId] + (if SafeJobId(jobId).Some? then map[JOB_KEY := jobId.value] else map[])
  }

  function ExpectedBinding(w: Worker): Result<Expected, Code> {
    if CheckWorker(w).Some? then Err(CheckWorker(w).value)
    else
      var metadata := WorkerMetadata(w.payloadId, w.jobId);
      Ok(Expected(Some(SCOPE_WORKLOAD), Some(w.sessionId), Some(Lower(w.hpc)), None,
                  Fields(map k | k in metadata :: Some(metadata[k]))))
  }

  function BoundJobId(r: Record): Option<string> {
    if JOB_KEY in r.metadata then Some(r.metadata[JOB_KEY]) else None
  }

  /** `assertJobBindingSatisfied` */
  predicate JobBindingSatisfied(r: Record, w: Worker) {
    BoundJobId(r).Some? ==> w.jobId == BoundJobId(r)
  }

  function ValidateWorkload(s: Records, token: string, w: Worker, now: int): Result<Record, Code> {
    match ExpectedBinding(w)
    case Err(code) => Err(code)
    case Ok(e) =>
      match Validate(s, token, e, now)
      case Err(code) => Err(code)
      case Ok(r) => if JobBindingSatisfied(r, w) then Ok(r) else Err(WrongJobId)
  }

  /** The expectation of the second step: the job id that the preflight record carries, or the caller's. */
  function Rebound(w: Worker, preflight: Record): Worker {
    w.(jobId := if BoundJobId(preflight).Some? then BoundJobId(preflight) else w.jobId)
  }

  /** The second awaited step. */
  function FinishConsume(s: Records, token: string, w: Worker, preflight: Record, now: int)
    : (Records, Result<Record, Code>)
  {
    match ExpectedBinding(Rebound(w, preflight))
    case Err(code) => (s, Err(code))
    case Ok(e) => Consume(s, token, e, now)
  }

  /** The call run alone; its two steps read the clock at `t0` and `t1`. */
  function ConsumeWorkload(s: Records, token: string, w: Worker, t0: int, t1: int): (Records, Result<Record, Code>) {
    match ValidateWorkload(s, token, w, t0)
    case Err(code) => (s, Err(code))
    case Ok(preflight) => FinishConsume(s, token, w, preflight, t1)
  }

  method ValidateWorkloadToken(store: TokenRegistry, token: string, w: Worker, now: int)
    returns (r: Result<Record, Code>)
    ensures r == ValidateWorkload(store.records, token, w, now)
  {
    var binding := ExpectedBinding(w);
    if binding.Err? {
      return Err(binding.error);
    }
    r := store.ValidateToken(token, binding.value, now);
    if r.Ok? && !JobBindingSatisfied(r.value, w) {
      r := Err(WrongJobId);
    }
  }

  method ConsumeWorkloadToken(store: TokenRegistry, token: string, w: Worker, t0: int, t1: int)
    returns (r: Result<Record, Code>)
    modifies store
    ensures (store.records, r) == ConsumeWorkload(old(store.records), token, w, t0, t1)
  {
    var preflight := ValidateWorkloadToken(store, token, w, t0);
    if preflight.Err? {
      return Err(preflight.error);
    }
    var binding := ExpectedBinding(Rebound(w, preflight.value));
    if binding.Err? {
      return Err(binding.error);
    }
    r := store.ConsumeToken(token, binding.value, t1);
  }

  /** The request that `issueWorkloadToken` passes on. */
  function IssueRequest(w: Worker, ttlMs: Option<int>, maxUses: Option<int>, metadata: map<string, string>)
    : Result<Request, Code>
  {
    if CheckWorker(w).Some? then Err(CheckWorker(w).value)
    else Ok(Request(SCOPE_WORKLOAD, Some(w.sessionId), Some(Lower(w.hpc)), None, ttlMs, maxUses,
                    metadata + WorkerMetadata(w.payloadId, w.jobId)))
  }

  // ------------------------------------------------------------------ what a call run alone accepts

  /** Absent on both sides, or equal on both. An empty job id counts as absent for an unbound record. */
  predicate SameJob(bound: Option<string>, given: Option<string>) {
    if bound.None? then SafeJobId(given).None? else given == bound
  }

  predicate Matches(r: Record, w: Worker) {
    && r.scope == SCOPE_WORKLOAD
    && r.sessionId == Some(w.sessionId)
    && r.hpc == Some(Lower(w.hpc))
    && PAYLOAD_KEY in r.metadata && r.metadata[PAYLOAD_KEY] == w.payloadId
    && SameJob(BoundJobId(r), w.jobId)
  }

  /** Everything the second step checks; a job id bound by the record but not asked for is not among it. */
  predicate MatchesButJob(r: Record, w: Worker) {
    && r.scope == SCOPE_WORKLOAD
    && r.sessionId == Some(w.sessionId)
    && r.hpc == Some(Lower(w.hpc))
    && PAYLOAD_KEY in r.metadata && r.metadata[PAYLOAD_KEY] == w.payloadId
    && (SafeJobId(w.jobId).Some? ==> BoundJobId(r) == w.jobId)
  }

  lemma BindingCheck(r: Record, w: Worker, now: int)
    requires ExpectedBinding(w).Ok?
    ensures CheckRecord(r, ExpectedBinding(w).value, now).None? <==> Live(r, now) && MatchesButJob(r, w)
  {
    var metadata := WorkerMetadata(w.payloadId, w.jobId);
    var fields := ExpectedBinding(w).value.metadata.fields;
    assert PAYLOAD_KEY != JOB_KEY by { assert |PAYLOAD_KEY| == 9 && |JOB_KEY| == 5; }
    assert fields.Keys == metadata.Keys;
    assert PAYLOAD_KEY in fields && fields[PAYLOAD_KEY] == Some(w.payloadId);
    if SafeJobId(w.jobId).Some? {
      assert JOB_KEY in fields && fields[JOB_KEY] == w.jobId;
    } else {
      assert fields.Keys == {PAYLOAD_KEY};
    }
    if Live(r, now) && MatchesButJob(r, w) {
      assert FieldsMatch(fields, r.metadata);
    }
  }

  /** Run alone, the call accepts exactly the live records that match in every respect, spends one use
      on acceptance and changes nothing on refusal. */
  lemma AcceptsExactlyLiveMatches(s: Records, token: string, w: Worker, t0: int, t1: int)
    requires t0 <= t1
    ensures var (s', r) := ConsumeWorkload(s, token, w, t0, t1);
      && (r.Ok? <==>
            && CheckWorker(w).None? && LegalToken(token) && Sha256(token) in s
            && Live(s[Sha256(token)], t1) && Matches(s[Sha256(token)], w))
      && (r.Ok? ==>
            && r.value == s[Sha256(token)].(used := s[Sha256(token)].used + 1)
            && s' == s[Sha256(token) := r.value])
      && (r.Err? ==> s' == s)
  {
    if CheckWorker(w).None? && LegalToken(token) && Sha256(token) in s {
      var r := s[Sha256(token)];
      BindingCheck(r, w, t0);
      if ValidateWorkload(s, token, w, t0).Ok? {
        assert Rebound(w, r) == w;
        BindingCheck(r, w, t1);
      }
    }
  }

  /** The job an issued token is bound to: the one named, or else a job id among the caller's own metadata. */
  function IssuedJob(w: Worker, metadata: map<string, string>): Option<string> {
    if SafeJobId(w.jobId).Some? then w.jobId
    else if JOB_KEY in metadata then Some(metadata[JOB_KEY])
    else None
  }

  lemma IssuedMetadata(w: Worker, metadata: map<string, string>)
    ensures var m := metadata + WorkerMetadata(w.payloadId, w.jobId);
      && PAYLOAD_KEY in m && m[PAYLOAD_KEY] == w.payloadId
      && (if JOB_KEY in m then Some(m[JOB_KEY]) else None) == IssuedJob(w, metadata)
  {
    assert PAYLOAD_KEY != JOB_KEY by { assert |PAYLOAD_KEY| == 9 && |JOB_KEY| == 5; }
  }

  /** A token issued for one worker, with any further metadata, admits another exactly when session, alias
      and payload agree and the other names the job it is bound to. */
  lemma IssuedTokenAdmitsItsWorker(
      s: Records, token: string, w: Worker, ttlMs: int, maxUses: int, metadata: map<string, string>, fp: string,
      issueTime: int, other: Worker, t0: int, t1: int)
    requires CheckWorker(w).None? && CheckWorker(other).None? && LegalToken(token) && Sha256(token) !in s
    requires 0 < ttlMs && 1 <= maxUses <= MAX_MAX_USES && t0 <= t1 < issueTime + ttlMs
    ensures var q := IssueRequest(w, Some(ttlMs), Some(maxUses), metadata).value;
      var (s', issued) := Issue(s, token, q, fp, issueTime);
      && issued.Ok?
      && (ConsumeWorkload(s', token, other, t0, t1).1.Ok? <==>
            && other.sessionId == w.sessionId && Lower(other.hpc) == Lower(w.hpc)
            && other.payloadId == w.payloadId && SameJob(IssuedJob(w, metadata), other.jobId))
  {
    var q := IssueRequest(w, Some(ttlMs), Some(maxUses), metadata).value;
    var (s', issued) := Issue(s, token, q, fp, issueTime);
    IssuedMetadata(w, metadata);
    AcceptsExactlyLiveMatches(s', token, other, t0, t1);
  }

  /** Which workers the binding accepts: the validators stand one after the other, and each text is tested whole. */
  lemma WorkersAcceptedExactly(w: Worker)
    ensures CheckWorker(w).None? <==>
      && w.payloadId in PAYLOAD_IDS
      && (w.jobId.None? || w.jobId.value == "" ||
            (|w.jobId.value| <= 32 && forall c <- w.jobId.value :: '0' <= c <= '9'))
      && IsSessionId(w.sessionId) && NormalizeAlias(Some(w.hpc)) == Some(Lower(w.hpc))
  {
  }

  lemma SessionIdsExactly(rest: string)
    ensures IsSessionId("sess_" + rest) <==>
      && 8 <= |rest| <= 128
      && forall c <- rest :: 'a' <= c <= 'z' || 'A' <= c <= 'Z' || '0' <= c <= '9' || c == '_' || c == '-'
  {
    assert ("sess_" + rest)[5..] == rest;
  }

  // ------------------------------------------------------------------ the two steps interleaved

  /** A call between its two steps; `since` is the length of the log when its preflight ran. */
  datatype Pending = Pending(token: string, worker: Worker, preflight: Record, since: nat)

  datatype World = World(records: Records, calls: map<nat, Pending>)

  const START := World(map[], map[])

  datatype Action =
    | Begin(id: nat, token: string, worker: Worker, now: int)
    | Finish(id: nat, now: int)
    | Registry(call: Call)

  ghost function Step(w: World, a: Action, time: nat): (World, Event) {
    match a
    case Begin(id, token, worker, now) =>
      var r := ValidateWorkload(w.records, token, worker, now);
      if r.Ok? then (w.(calls := w.calls[id := Pending(token, worker, r.value, time)]), Other) else (w, Other)
    case Finish(id, now) =>
      if id !in w.calls then (w, Other)
      else
        var p := w.calls[id];
        var (records, r) := FinishConsume(w.records, p.token, p.worker, p.preflight, now);
        (World(records, w.calls - {id}), if r.Ok? then Accepted(Sha256(p.token)) else Other)
    case Registry(c) =>
      var (records, v) := Apply(w.records, c);
      (w.(records := records), CallEvent(c, v))
  }

  ghost function Calls(): Machine<World, Action, Event> {
    (w: World, a: Action, time: nat) => Step(w, a, time)
  }

  ghost function After(actions: seq<Action>): World {
    StateAfter(Calls(), START, actions)
  }

  ghost function Trace(actions: seq<Action>): (log: seq<Event>)
    ensures |log| == |actions|
  {
    LogOf(Calls(), START, actions)
  }

  /** A pending call's preflight record matched its worker, so its second step binds the worker as given. */
  ghost predicate Preflighted(p: Pending) {
    CheckWorker(p.worker).None? && Matches(p.preflight, p.worker) && Rebound(p.worker, p.preflight) == p.worker
  }

  /** Unless its token was issued again since its preflight, a pending call's token still matches it. */
  ghost predicate StillMatches(p: Pending, records: Records, log: seq<Event>) {
    && p.since <= |log|
    && (!IssuesIn(log[p.since..], Sha256(p.token)) && Sha256(p.token) in records ==>
          Matches(records[Sha256(p.token)], p.worker))
  }

  /** Stored uses are exactly the accepted consumes, and the tokens of pending calls still match them. */
  ghost predicate Invariant(w: World, log: seq<Event>) {
    && Explains(log, w.records)
    && forall id <- w.calls :: Preflighted(w.calls[id]) && StillMatches(w.calls[id], w.records, log)
  }

  /** Apart from an issue of the key, a registry call leaves a surviving record's binding fields alone. */
  ghost predicate SameBinding(r: Record, r': Record) {
    r' == r.(used := r'.used, revoked := r'.revoked)
  }

  lemma BindingsSurvive(s: Records, c: Call, d: Digest)
    requires d in Apply(s, c).0 && !(c.op.IssueOp? && Sha256(c.op.token) == d && Apply(s, c).1.Some?)
    ensures d in s && SameBinding(s[d], Apply(s, c).0[d])
  {
  }

  lemma StepAccounts(w: World, a: Action, time: nat)
    ensures var (w', event) := Step(w, a, time); Accounts(w.records, w'.records, event)
  {
    if a.Registry? {
      CallAccounts(w.records, a.call);
    } else if a.Finish? && a.id in w.calls {
      FinishAccounts(w.records, w.calls[a.id], a.now);
    }
  }

  lemma FinishAccounts(s: Records, p: Pending, now: int)
    ensures var (s', r) := FinishConsume(s, p.token, p.worker, p.preflight, now);
      Accounts(s, s', if r.Ok? then Accepted(Sha256(p.token)) else Other)
  {
    var binding := ExpectedBinding(Rebound(p.worker, p.preflight));
    if binding.Ok? {
      ConsumeAccounts(s, p.token, binding.value, now);
    }
  }

  /** What a step does to the records of a token that it does not issue. */
  lemma StepKeepsBinding(w: World, a: Action, time: nat, d: Digest)
    requires var (w', e) := Step(w, a, time); d in w'.records && !(e.Issued? && e.key == d)
    ensures d in w.records && SameBinding(w.records[d], Step(w, a, time).0.records[d])
  {
    if a.Registry? {
      BindingsSurvive(w.records, a.call, d);
    }
  }

  lemma PendingKept(p: Pending, s: Records, s': Records, log: seq<Event>, e: Event)
    requires StillMatches(p, s, log)
    requires var d := Sha256(p.token); d in s' && !(e.Issued? && e.key == d) ==> d in s && SameBinding(s[d], s'[d])
    ensures StillMatches(p, s', log + [e])
  {
    var tail, d := (log + [e])[p.since..], Sha256(p.token);
    assert tail == log[p.since..] + [e];
    if !IssuesIn(tail, d) && d in s' {
      assert e in tail;
      assert forall x <- log[p.since..] :: x in tail;
    }
  }

  lemma PendingStep(w: World, log: seq<Event>, a: Action, id: nat)
    requires Invariant(w, log) && id in Step(w, a, |log|).0.calls
    ensures var (w', event) := Step(w, a, |log|);
      Preflighted(w'.calls[id]) && StillMatches(w'.calls[id], w'.records, log + [event])
  {
    var (w', event) := Step(w, a, |log|);
    var p := w'.calls[id];
    var d := Sha256(p.token);
    if a.Begin? && a.id == id && ValidateWorkload(w.records, a.token, a.worker, a.now).Ok? {
      BindingCheck(w.records[d], p.worker, a.now);
    } else {
      if d in w'.records && !(event.Issued? && event.key == d) {
        StepKeepsBinding(w, a, |log|, d);
      }
      assert StillMatches(w.calls[id], w.records, log);
      PendingKept(p, w.records, w'.records, log, event);
    }
  }

  lemma {:induction false} RunKeepsInvariant(actions: seq<Action>)
    ensures Invariant(After(actions), Trace(actions))
  {
    if actions != [] {
      var w, log, a := After(Init(actions)), Trace(Init(actions)), Last(actions);
      RunKeepsInvariant(Init(actions));
      StepAccounts(w, a, |log|);
      AccountingExplains(log, w.records, Step(w, a, |log|).0.records, Step(w, a, |log|).1);
      forall id <- Step(w, a, |log|).0.calls { PendingStep(w, log, a, id); }
    }
  }

  /** However workload calls and other registry calls interleave, an issue grants at most `maxUses`
      consumes before the value is issued again; a one-use token is won at most once. */
  lemma IssueIsWonWithinBudget(actions: seq<Action>, key: Digest, i: nat, j: nat)
    requires i < j <= |actions|
    requires Trace(actions)[i].Issued? && Trace(actions)[i].key == key
    requires !IssuesIn(Trace(actions)[i + 1..j], key)
    ensures CountAccepted(Trace(actions)[i + 1..j], key) <= Trace(actions)[i].maxUses
  {
    var log := Trace(actions)[..j];
    LogOfPrefix(Calls(), START, actions, j);
    RunKeepsInvariant(actions[..j]);
    assert log[i + 1..] == Trace(actions)[i + 1..j];
    UsesSinceIssue(log, i, key);
    assert Uses(log, key) <= Budget(log, key);
  }

  lemma AcceptedFinish(s: Records, p: Pending, now: int)
    requires Preflighted(p) && FinishConsume(s, p.token, p.worker, p.preflight, now).1.Ok?
    ensures var d := Sha256(p.token);
      && d in s && Live(s[d], now) && MatchesButJob(s[d], p.worker)
      && FinishConsume(s, p.token, p.worker, p.preflight, now).1.value == s[d].(used := s[d].used + 1)
  {
    BindingCheck(s[Sha256(p.token)], p.worker, now);
  }

  /** The outcome of the second step of call `id`, taken at any later point of the run. */
  ghost function Finished(actions: seq<Action>, id: nat, now: int): (Records, Result<Record, Code>)
    requires id in After(actions).calls
  {
    var p := After(actions).calls[id];
    FinishConsume(After(actions).records, p.token, p.worker, p.preflight, now)
  }

  /** The token of call `id` was issued again after its preflight. */
  ghost predicate ReissuedMeanwhile(actions: seq<Action>, id: nat)
    requires id in After(actions).calls
  {
    var p := After(actions).calls[id];
    p.since <= |actions| && IssuesIn(Trace(actions)[p.since..], Sha256(p.token))
  }

  /** The worker names a job, or the record is bound to none, or to the very job given. */
  predicate JobIsNamed(r: Record, w: Worker) {
    SafeJobId(w.jobId).Some? || BoundJobId(r).None? || BoundJobId(r) == w.jobId
  }

  /** In every run, a finishing call that is accepted holds a full match exactly when its worker names a job
      or the record it spends is bound to none. It fails to only if the token was issued again between the two
      steps. A finishing call that is refused spends nothing. */
  lemma FinishedCallsMatch(actions: seq<Action>, id: nat, now: int)
    requires id in After(actions).calls
    ensures var w, (records, r) := After(actions).calls[id].worker, Finished(actions, id, now);
      && (r.Ok? ==> (Matches(r.value, w) <==> JobIsNamed(r.value, w)))
      && (r.Ok? && !ReissuedMeanwhile(actions, id) ==> Matches(r.value, w))
      && (r.Err? ==> records == After(actions).records)
  {
    RunKeepsInvariant(actions);
    var p := After(actions).calls[id];
    if Finished(actions, id, now).1.Ok? {
      AcceptedFinish(After(actions).records, p, now);
    }
  }

  /** So a worker that names its job is never admitted to another, whatever runs between the steps. */
  lemma NamedJobsAreKept(actions: seq<Action>, id: nat, now: int)
    requires id in After(actions).calls && SafeJobId(After(actions).calls[id].worker.jobId).Some?
    ensures var w, r := After(actions).calls[id].worker, Finished(actions, id, now).1;
      r.Ok? ==> Matches(r.value, w) && BoundJobId(r.value) == w.jobId
  {
    FinishedCallsMatch(actions, id, now);
  }

  /** In every run, a finishing call is accepted exactly when its token's record is then live and agrees with its
      worker in scope, session, alias and payload, and in the job if the worker names one. */
  lemma FinishesExactly(actions: seq<Action>, id: nat, now: int)
    requires id in After(actions).calls
    ensures var p, s := After(actions).calls[id], After(actions).records;
      Finished(actions, id, now).1.Ok? <==>
        && 16 <= |p.token| <= 4096 && Sha256(p.token) in s
        && Live(s[Sha256(p.token)], now) && MatchesButJob(s[Sha256(p.token)], p.worker)
  {
    RunKeepsInvariant(actions);
    var p, s := After(actions).calls[id], After(actions).records;
    assert Preflighted(p);
    if Sha256(p.token) in s {
      BindingCheck(s[Sha256(p.token)], p.worker, now);
    }
  }

  /** A call between whose two steps nothing runs is the call run alone. */
  lemma UndisturbedCallRunsAlone(w: World, id: nat, token: string, worker: Worker, t0: int, t1: int, time: nat)
    requires id !in w.calls && t0 <= t1
    ensures var begun := Step(w, Begin(id, token, worker, t0), time).0;
      var (w', event) := Step(begun, Finish(id, t1), time + 1);
      var (records, r) := ConsumeWorkload(w.records, token, worker, t0, t1);
      w' == w.(records := records) && event == if r.Ok? then Accepted(Sha256(token)) else Other
  {
    var begun := Step(w, Begin(id, token, worker, t0), time).0;
    if id in begun.calls {
      assert begun.calls - {id} == w.calls;
    }
  }

  // -- the exception, as a run

  /** A one-use token that lives for 1 ms. */
  function ShortLived(w: Worker): Request
    requires CheckWorker(w).None?
  {
    IssueRequest(w, Some(1), Some(1), map[]).value
  }

  /** Issued for no job, checked for a worker that names none, swept out, and issued again for a job. */
  function EscapingRun(w: Worker, token: string, job: string, fp: string): seq<Action>
    requires CheckWorker(w).None? && IsJobId(job)
  {
    [Registry(Call(0, IssueOp(token, ShortLived(w), fp)))]
    + [Begin(0, token, w, 0)]
    + [Registry(Call(1, CleanupOp))]
    + [Registry(Call(1, IssueOp(token, ShortLived(w.(jobId := Some(job))), fp)))]
  }

  lemma ShortLivedIssue(s: Records, w: Worker, token: string, fp: string, now: int)
    requires CheckWorker(w).None? && Sha256(token) !in s
    ensures var r := NewRecord(ShortLived(w), fp, now);
      && Issue(s, token, ShortLived(w), fp, now) == (s[Sha256(token) := r], Ok(r))
      && MatchesButJob(r, w) && BoundJobId(r) == SafeJobId(w.jobId) && Live(r, now) && !Live(r, now + 1)
      && r.expiresAt == now + 1
  {
    IssuedMetadata(w, map[]);
  }

  lemma AfterOne(actions: seq<Action>, a: Action)
    ensures After(actions + [a]) == Step(After(actions), a, |actions|).0
  {
    OneMore(Calls(), START, actions, a);
  }

  lemma IssuedAndBegun(w: Worker, token: string, fp: string)
    requires CheckWorker(w).None? && LegalToken(token)
    ensures var r := NewRecord(ShortLived(w), fp, 0);
      After([Registry(Call(0, IssueOp(token, ShortLived(w), fp)))] + [Begin(0, token, w, 0)])
        == World(map[Sha256(token) := r], map[0 := Pending(token, w, r, 1)])
  {
    var r, issue := NewRecord(ShortLived(w), fp, 0), [Registry(Call(0, IssueOp(token, ShortLived(w), fp)))];
    ShortLivedIssue(map[], w, token, fp, 0);
    assert issue == [] + issue;
    AfterOne([], issue[0]);
    assert After(issue) == World(map[Sha256(token) := r], map[]);
    BindingCheck(r, w, 0);
    AfterOne(issue, Begin(0, token, w, 0));
  }

  lemma SweptAndReissued(
      h: seq<Action>, w: Worker, token: string, fp: string, r: Record, calls: map<nat, Pending>)
    requires CheckWorker(w).None? && After(h) == World(map[Sha256(token) := r], calls) && r.expiresAt <= 1
    ensures
      After(h + [Registry(Call(1, CleanupOp))] + [Registry(Call(1, IssueOp(token, ShortLived(w), fp)))])
        == World(map[Sha256(token) := NewRecord(ShortLived(w), fp, 1)], calls)
  {
    var sweep := h + [Registry(Call(1, CleanupOp))];
    AfterOne(h, Registry(Call(1, CleanupOp)));
    assert After(sweep) == World(map[], calls);
    ShortLivedIssue(map[], w, token, fp, 1);
    AfterOne(sweep, Registry(Call(1, IssueOp(token, ShortLived(w), fp))));
  }

  /** Every worker that names no job can be admitted to any job in this way. */
  lemma ReissuedTokenEscapesItsJob(w: Worker, token: string, job: string, fp: string)
    requires CheckWorker(w).None? && SafeJobId(w.jobId).None? && LegalToken(token) && IsJobId(job)
    ensures var actions := EscapingRun(w, token, job, fp);
      && 0 in After(actions).calls && After(actions).calls[0].worker == w
      && Finished(actions, 0, 1).1.Ok? && BoundJobId(Finished(actions, 0, 1).1.value) == Some(job)
      && !Matches(Finished(actions, 0, 1).1.value, w)
  {
    var w', r := w.(jobId := Some(job)), NewRecord(ShortLived(w), fp, 0);
    var begin := [Registry(Call(0, IssueOp(token, ShortLived(w), fp)))] + [Begin(0, token, w, 0)];
    IssuedAndBegun(w, token, fp);
    ShortLivedIssue(map[], w, token, fp, 0);
    SweptAndReissued(begin, w', token, fp, r, map[0 := Pending(token, w, r, 1)]);
    ShortLivedIssue(map[], w', token, fp, 1);
    BindingCheck(NewRecord(ShortLived(w'), fp, 1), w, 1);
  }
}
