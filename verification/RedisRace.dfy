/** The Redis store under interleaving: any number of instances with any clocks, each operation split
    into the server commands it awaits. Consume is one command; revoke reads and later writes; cleanup
    reads and later deletes; keys may expire at any time. */
module RedisRace {
  import opened Wrappers
  import opened Tokens
  import opened TokenRegistry
  import opened Runs
  import opened UseLog
  import Redis = RedisStore

  /** An operation suspended between its two commands; `since` is the length of the log at the read, and `at` the
      clock by which a cleanup found the record expired. */
  datatype Flight =
    | Revoking(key: Digest, snapshot: Record, since: nat)
    | Deleting(key: Digest, at: int, since: nat)

  datatype Shared = Shared(entries: Redis.Entries, flights: map<nat, Flight>)

  const EMPTY := Shared(map[], map[])

  /** `at` is the acting instance's clock and `now` the server's; both are arbitrary. */
  datatype Action =
    | IssueSet(key: Digest, request: Request, fingerprint: string, at: int, now: int)
    | ConsumeEval(key: Digest, expected: Expected, at: int, now: int)
    | RevokeGet(id: nat, key: Digest, now: int)
    | RevokeSet(id: nat, at: int, now: int)
    | CleanupGet(id: nat, key: Digest, at: int, now: int)
    | CleanupDel(id: nat)
    | Expire(key: Digest)

  function Step(s: Shared, a: Action, time: nat, grace: nat): (Shared, Event) {
    match a
    case IssueSet(key, q, fp, at, now) =>
      if CheckRequest(q).Some? || !BindingsFit(q) then (s, Other)
      else
        var (entries, ok) := Redis.Set(s.entries, key, NewRecord(q, fp, at), q.ttlMs.value + grace, true, now);
        if ok then (s.(entries := entries), Issued(key, q.maxUses.value)) else (s, Other)
    case ConsumeEval(key, e, at, now) =>
      var (entries, r) := Redis.Eval(s.entries, key, e, at, now);
      if r.Ok? then (s.(entries := entries), Accepted(key)) else (s, Other)
    case RevokeGet(id, key, now) =>
      var r := Redis.Get(s.entries, key, now);
      if r.Some? then (s.(flights := s.flights[id := Revoking(key, r.value, time)]), Other) else (s, Other)
    case RevokeSet(id, at, now) =>
      if id in s.flights && s.flights[id].Revoking? then
        var Revoking(key, snapshot, _) := s.flights[id];
        var ttlMs := Redis.TtlMs(snapshot, at, grace);
        (Shared(Redis.Set(s.entries, key, snapshot.(revoked := true), ttlMs, false, now).0, s.flights - {id}),
         RevokeStored(key))
      else (s, Other)
    case CleanupGet(id, key, at, now) =>
      var r := Redis.Get(s.entries, key, now);
      if r.Some? && r.value.expiresAt <= at then (s.(flights := s.flights[id := Deleting(key, at, time)]), Other)
      else (s, Other)
    case CleanupDel(id) =>
      if id in s.flights && s.flights[id].Deleting? then
        (Shared(s.entries - {s.flights[id].key}, s.flights - {id}), Other)
      else (s, Other)
    case Expire(key) => (s.(entries := s.entries - {key}), Other)
  }

  ghost function Race(grace: nat): Machine<Shared, Action, Event> {
    (s: Shared, a: Action, time: nat) => Step(s, a, time, grace)
  }

  ghost function After(actions: seq<Action>, grace: nat): Shared {
    StateAfter(Race(grace), EMPTY, actions)
  }

  ghost function Trace(actions: seq<Action>, grace: nat): (log: seq<Event>)
    ensures |log| == |actions|
  {
    LogOf(Race(grace), EMPTY, actions)
  }

  /** A revoke of the key has been stored since its last issue. */
  predicate Shut(log: seq<Event>, key: Digest) {
    log != [] &&
    match Last(log)
    case Issued(k, _) => k != key && Shut(Init(log), key)
    case RevokeStored(k) => k == key || Shut(Init(log), key)
    case _ => Shut(Init(log), key)
  }

  /** The invariant of the race. "Stored used equals accepted consumes" fails when a revoke writes back
      an older snapshot, but such a record is revoked. */
  ghost predicate Invariant(s: Shared, log: seq<Event>) {
    && (forall d <- s.entries ::
          var r := s.entries[d].record;
          r.revoked || (r.used == Uses(log, d) && r.maxUses == Budget(log, d) && !Shut(log, d)))
    && (forall d: Digest :: Uses(log, d) <= Budget(log, d))
  }

  lemma StepKeepsInvariant(s: Shared, log: seq<Event>, a: Action, grace: nat)
    requires Invariant(s, log)
    ensures var (s', event) := Step(s, a, |log|, grace); Invariant(s', log + [event])
  {
    var (s', event) := Step(s, a, |log|, grace);
    var log' := log + [event];
    assert Init(log') == log && Last(log') == event;
    forall d: Digest ensures Uses(log', d) <= Budget(log', d) {
      assert Uses(log, d) <= Budget(log, d);
    }
  }

  lemma {:induction false} RunKeepsInvariant(actions: seq<Action>, grace: nat)
    ensures Invariant(After(actions, grace), Trace(actions, grace))
  {
    if actions != [] {
      RunKeepsInvariant(Init(actions), grace);
      StepKeepsInvariant(After(Init(actions), grace), Trace(Init(actions), grace), Last(actions), grace);
    }
  }

  // ------------------------------------------------------------------ every issue stays within its budget

  /** In every interleaving, the consumes accepted after an issue and before the next issue of the same
      value never exceed the `maxUses` of that issue. */
  lemma NoIssueIsOverspent(actions: seq<Action>, grace: nat, key: Digest, i: nat, j: nat)
    requires i < j <= |actions|
    requires Trace(actions, grace)[i].Issued? && Trace(actions, grace)[i].key == key
    requires !IssuesIn(Trace(actions, grace)[i + 1..j], key)
    ensures CountAccepted(Trace(actions, grace)[i + 1..j], key) <= Trace(actions, grace)[i].maxUses
  {
    var log := Trace(actions, grace)[..j];
    LogOfPrefix(Race(grace), EMPTY, actions, j);
    RunKeepsInvariant(actions[..j], grace);
    assert log[i + 1..] == Trace(actions, grace)[i + 1..j];
    UsesSinceIssue(log, i, key);
    assert Uses(log, key) <= Budget(log, key);
  }

  // ------------------------------------------------------------------ revocation is final

  lemma {:induction false} ShutSinceRevoke(log: seq<Event>, i: nat, key: Digest)
    requires i < |log| && log[i] == RevokeStored(key) && !IssuesIn(log[i + 1..], key)
    ensures Shut(log, key)
  {
    if i + 1 < |log| {
      assert Last(log) in log[i + 1..];
      assert Init(log)[i + 1..] == Init(log[i + 1..]);
      ShutSinceRevoke(Init(log), i, key);
    }
  }

  /** While a stored revoke stands, the script refuses. */
  lemma ShutRefuses(s: Shared, log: seq<Event>, a: Action, grace: nat, key: Digest)
    requires Invariant(s, log) && Step(s, a, |log|, grace).1 == Accepted(key)
    ensures !Shut(log, key)
  {
    assert a.ConsumeEval? && a.key == key && key in s.entries;
    assert !s.entries[key].record.revoked;
  }

  /** Once a revoke's write has run, a consume of that key is accepted only after a new issue of it. */
  lemma RevocationIsFinal(actions: seq<Action>, grace: nat, key: Digest, i: nat, j: nat)
    requires i < j < |actions|
    requires Trace(actions, grace)[i] == RevokeStored(key) && Trace(actions, grace)[j] == Accepted(key)
    ensures IssuesIn(Trace(actions, grace)[i + 1..j], key)
  {
    var log := Trace(actions, grace);
    LogOfPrefix(Race(grace), EMPTY, actions, j);
    EventAt(Race(grace), EMPTY, actions, j);
    RunKeepsInvariant(actions[..j], grace);
    ShutRefuses(After(actions[..j], grace), Trace(actions[..j], grace), actions[j], grace, key);
    assert log[..j][i + 1..] == log[i + 1..j];
    if !IssuesIn(log[i + 1..j], key) {
      ShutSinceRevoke(log[..j], i, key);
    }
  }

  // ------------------------------------------------------------------ when the stored count is right

  ghost predicate CountIsRight(s: Shared, log: seq<Event>, key: Digest) {
    key in s.entries ==> s.entries[key].record.used == Uses(log, key)
  }

  /** The write of a revoke between whose two commands the uses of the key have changed. */
  ghost predicate Rewinds(s: Shared, log: seq<Event>, a: Action, key: Digest) {
    && a.RevokeSet? && a.id in s.flights && s.flights[a.id].Revoking? && s.flights[a.id].key == key
    && s.flights[a.id].since <= |log|
    && Uses(log[..s.flights[a.id].since], key) != Uses(log, key)
  }

  /** The snapshots in flight were read while the stored count was right. */
  ghost predicate SnapshotsAreRight(s: Shared, log: seq<Event>, key: Digest) {
    forall id <- s.flights | s.flights[id].Revoking? && s.flights[id].key == key ::
      s.flights[id].since <= |log| && s.flights[id].snapshot.used == Uses(log[..s.flights[id].since], key)
  }

  lemma UsesAfter(log: seq<Event>, e: Event, key: Digest)
    ensures Uses(log + [e], key) ==
      match e
      case Issued(k, _) => if k == key then 0 else Uses(log, key)
      case Accepted(k) => (if k == key then 1 else 0) + Uses(log, key)
      case _ => Uses(log, key)
  {
    assert Init(log + [e]) == log && Last(log + [e]) == e;
  }

  /** A right count stays right over a step exactly when the step does not rewind it. */
  lemma CountStep(s: Shared, log: seq<Event>, a: Action, grace: nat, key: Digest)
    requires CountIsRight(s, log, key) && SnapshotsAreRight(s, log, key)
    ensures var (s', e) := Step(s, a, |log|, grace);
      CountIsRight(s', log + [e], key) <==> !Rewinds(s, log, a, key)
  {
    UsesAfter(log, Step(s, a, |log|, grace).1, key);
  }

  lemma SnapshotStep(s: Shared, log: seq<Event>, a: Action, grace: nat, key: Digest)
    requires CountIsRight(s, log, key) && SnapshotsAreRight(s, log, key)
    ensures var (s', e) := Step(s, a, |log|, grace); SnapshotsAreRight(s', log + [e], key)
  {
    var (s', e) := Step(s, a, |log|, grace);
    forall id <- s'.flights | s'.flights[id].Revoking? && s'.flights[id].key == key
      ensures s'.flights[id].since <= |log|
      ensures s'.flights[id].snapshot.used == Uses((log + [e])[..s'.flights[id].since], key)
    {
      assert (log + [e])[..s'.flights[id].since] == log[..s'.flights[id].since];
      assert log[..|log|] == log;
    }
  }

  ghost predicate RightAt(actions: seq<Action>, grace: nat, key: Digest, n: nat) {
    n <= |actions| && CountIsRight(After(actions[..n], grace), Trace(actions[..n], grace), key)
  }

  ghost predicate RewindsAt(actions: seq<Action>, grace: nat, key: Digest, n: nat) {
    n < |actions| && Rewinds(After(actions[..n], grace), Trace(actions[..n], grace), actions[n], key)
  }

  lemma StepOfPrefix(actions: seq<Action>, grace: nat, n: nat)
    requires n < |actions|
    ensures var (s', e) := Step(After(actions[..n], grace), actions[n], n, grace);
      After(actions[..n + 1], grace) == s' && Trace(actions[..n + 1], grace) == Trace(actions[..n], grace) + [e]
  {
    PrefixPlusOne(actions, n);
    OneMore(Race(grace), EMPTY, actions[..n], actions[n]);
  }

  lemma {:induction false} SnapshotsWhileRight(actions: seq<Action>, grace: nat, key: Digest, n: nat)
    requires n <= |actions| && forall i: nat | i < n :: RightAt(actions, grace, key, i)
    ensures SnapshotsAreRight(After(actions[..n], grace), Trace(actions[..n], grace), key)
  {
    if n > 0 {
      SnapshotsWhileRight(actions, grace, key, n - 1);
      assert RightAt(actions, grace, key, n - 1);
      StepOfPrefix(actions, grace, n - 1);
      SnapshotStep(After(actions[..n - 1], grace), Trace(actions[..n - 1], grace), actions[n - 1], grace, key);
    }
  }

  lemma NextRight(actions: seq<Action>, grace: nat, key: Digest, n: nat)
    requires n < |actions| && forall i: nat | i <= n :: RightAt(actions, grace, key, i)
    ensures RightAt(actions, grace, key, n + 1) <==> !RewindsAt(actions, grace, key, n)
  {
    SnapshotsWhileRight(actions, grace, key, n);
    assert RightAt(actions, grace, key, n);
    StepOfPrefix(actions, grace, n);
    CountStep(After(actions[..n], grace), Trace(actions[..n], grace), actions[n], grace, key);
  }

  /** The stored `used` of a key equals its accepted consumes at every point of a run exactly when the uses
      of the key never change between the read and the write of one revoke of it. */
  lemma CountIsRightExactly(actions: seq<Action>, grace: nat, key: Digest)
    ensures (forall n: nat | n <= |actions| :: RightAt(actions, grace, key, n))
       <==> (forall n: nat | n < |actions| :: !RewindsAt(actions, grace, key, n))
  {
    var good := (n: nat) => RightAt(actions, grace, key, n);
    var bad := (n: nat) => RewindsAt(actions, grace, key, n);
    assert actions[..0] == [];
    forall n: nat | n < |actions| && AllGood(good, n) ensures good(n + 1) <==> !bad(n) {
      forall i: nat | i <= n ensures RightAt(actions, grace, key, i) {
        assert good(i);
      }
      NextRight(actions, grace, key, n);
    }
    Throughout(|actions|, good, bad);
    assert forall n: nat ::
      (good(n) <==> RightAt(actions, grace, key, n)) && (bad(n) <==> RewindsAt(actions, grace, key, n));
  }

  // -- such a revoke exists, for every token

  /** A consume slips in between the two commands of a revoke. */
  function RewindingRun(key: Digest, q: Request, fp: string): seq<Action> {
    [IssueSet(key, q, fp, 0, 0)] + [RevokeGet(0, key, 0)] + [ConsumeEval(key, ANYTHING, 0, 0)] + [RevokeSet(0, 0, 0)]
  }

  lemma AfterOne(actions: seq<Action>, a: Action, grace: nat)
    ensures var (s', e) := Step(After(actions, grace), a, |actions|, grace);
      After(actions + [a], grace) == s' && Trace(actions + [a], grace) == Trace(actions, grace) + [e]
  {
    OneMore(Race(grace), EMPTY, actions, a);
  }

  lemma IssueAndRead(key: Digest, q: Request, fp: string, grace: nat)
    requires CheckRequest(q).None? && BindingsFit(q)
    ensures var h, r := [IssueSet(key, q, fp, 0, 0)] + [RevokeGet(0, key, 0)], NewRecord(q, fp, 0);
      && After(h, grace) == Shared(map[key := Redis.Entry(r, q.ttlMs.value + grace)], map[0 := Revoking(key, r, 1)])
      && Uses(Trace(h, grace), key) == 0
  {
    var issue := [IssueSet(key, q, fp, 0, 0)];
    assert issue == [] + issue;
    AfterOne([], issue[0], grace);
    AfterOne(issue, RevokeGet(0, key, 0), grace);
    UsesAfter(Trace([], grace), Issued(key, q.maxUses.value), key);
    UsesAfter(Trace(issue, grace), Other, key);
  }

  /** A consume while the revoke holds its snapshot `r`, and then the write. */
  lemma ConsumeAndWrite(h: seq<Action>, key: Digest, r: Record, deadline: int, grace: nat)
    requires After(h, grace) == Shared(map[key := Redis.Entry(r, deadline)], map[0 := Revoking(key, r, 1)])
    requires Uses(Trace(h, grace), key) == 0 == r.used && Live(r, 0) && 0 <= deadline
    ensures var h' := h + [ConsumeEval(key, ANYTHING, 0, 0)] + [RevokeSet(0, 0, 0)];
      && key in After(h', grace).entries && After(h', grace).entries[key].record.used == 0
      && Uses(Trace(h', grace), key) == 1
  {
    var consume := h + [ConsumeEval(key, ANYTHING, 0, 0)];
    AfterOne(h, ConsumeEval(key, ANYTHING, 0, 0), grace);
    UsesAfter(Trace(h, grace), Accepted(key), key);
    AfterOne(consume, RevokeSet(0, 0, 0), grace);
    UsesAfter(Trace(consume, grace), RevokeStored(key), key);
  }

  /** Its write makes the stored `used` fall below the accepted consumes. */
  lemma StaleRevokeRewindsUsed(key: Digest, q: Request, fp: string, grace: nat)
    requires CheckRequest(q).None? && BindingsFit(q)
    ensures var s, log := After(RewindingRun(key, q, fp), grace), Trace(RewindingRun(key, q, fp), grace);
      key in s.entries && s.entries[key].record.used == 0 && Uses(log, key) == 1
  {
    var read := [IssueSet(key, q, fp, 0, 0)] + [RevokeGet(0, key, 0)];
    IssueAndRead(key, q, fp, grace);
    ConsumeAndWrite(read, key, NewRecord(q, fp, 0), q.ttlMs.value + grace, grace);
    assert RewindingRun(key, q, fp) == read + [ConsumeEval(key, ANYTHING, 0, 0)] + [RevokeSet(0, 0, 0)];
  }

  // ------------------------------------------------------------------ what a cleanup deletes

  /** Unless its key was issued again since the read, the record a cleanup is about to delete has expired by the
      clock of the read, or is revoked. */
  ghost predicate Dead(f: Flight, entries: Redis.Entries, log: seq<Event>)
    requires f.Deleting?
  {
    && f.since <= |log|
    && (f.key in entries && !IssuesIn(log[f.since..], f.key) ==>
          entries[f.key].record.revoked || entries[f.key].record.expiresAt <= f.at)
  }

  ghost predicate DeletesTheDead(s: Shared, log: seq<Event>) {
    forall id <- s.flights | s.flights[id].Deleting? :: Dead(s.flights[id], s.entries, log)
  }

  lemma IssuesGrow(log: seq<Event>, e: Event, since: nat, key: Digest)
    requires since <= |log|
    ensures IssuesIn((log + [e])[since..], key) <==> IssuesIn(log[since..], key) || (e.Issued? && e.key == key)
  {
    var tail := log[since..];
    assert (log + [e])[since..] == tail + [e];
    assert forall x: Event :: x in tail + [e] <==> x in tail || x == e;
  }

  /** What one step does to a stored record without an issue of its key. */
  lemma RecordAges(s: Shared, a: Action, time: nat, grace: nat, key: Digest)
    ensures var (s', e) := Step(s, a, time, grace);
      key in s'.entries && !(e.Issued? && e.key == key) ==>
        || s'.entries[key].record.revoked
        || (key in s.entries && s'.entries[key].record.expiresAt == s.entries[key].record.expiresAt
            && s'.entries[key].record.revoked == s.entries[key].record.revoked)
  {
  }

  lemma DeletesStep(s: Shared, log: seq<Event>, a: Action, grace: nat)
    requires DeletesTheDead(s, log)
    ensures var (s', e) := Step(s, a, |log|, grace); DeletesTheDead(s', log + [e])
  {
    var (s', e) := Step(s, a, |log|, grace);
    forall id <- s'.flights | s'.flights[id].Deleting? ensures Dead(s'.flights[id], s'.entries, log + [e]) {
      var f := s'.flights[id];
      RecordAges(s, a, |log|, grace, f.key);
      IssuesGrow(log, e, f.since, f.key);
    }
  }

  lemma {:induction false} RunDeletesTheDead(actions: seq<Action>, grace: nat)
    ensures DeletesTheDead(After(actions, grace), Trace(actions, grace))
  {
    if actions != [] {
      RunDeletesTheDead(Init(actions), grace);
      DeletesStep(After(Init(actions), grace), Trace(Init(actions), grace), Last(actions), grace);
    }
  }

  /** In every interleaving, what a cleanup deletes has expired by the clock that condemned it or is revoked, unless
      its value was issued again between the two commands. */
  lemma CleanupDeletesTheDead(actions: seq<Action>, grace: nat, id: nat)
    requires var s := After(actions, grace); id in s.flights && s.flights[id].Deleting?
    ensures var s, f := After(actions, grace), After(actions, grace).flights[id];
      f.key in s.entries && Live(s.entries[f.key].record, f.at) ==>
        f.since <= |actions| && IssuesIn(Trace(actions, grace)[f.since..], f.key)
  {
    RunDeletesTheDead(actions, grace);
  }

  /** The clock at which a cleanup finds the record of `q` expired, and one at which its key is no longer returned. */
  function Expiry(q: Request): int {
    if q.ttlMs.Some? then q.ttlMs.value else 0
  }

  function StaleCleanup(key: Digest, q: Request, fp: string, grace: nat): seq<Action> {
    var (expiry, gone) := (Expiry(q), Expiry(q) + grace + 1);
    [IssueSet(key, q, fp, 0, 0)] + [CleanupGet(0, key, expiry, expiry)] + [IssueSet(key, q, fp, gone, gone)]
  }

  /** Such a reissue exists: the value is issued again after its key is gone, and the late delete removes a record
      that could still be used. */
  lemma StaleCleanupDeletesTheLiving(key: Digest, q: Request, fp: string, grace: nat)
    requires CheckRequest(q).None? && BindingsFit(q)
    ensures var run := StaleCleanup(key, q, fp, grace);
      var (before, after) := (After(run, grace), After(run + [CleanupDel(0)], grace));
      && key in before.entries && Live(before.entries[key].record, Expiry(q) + grace + 1)
      && key !in after.entries
  {
    var (expiry, gone) := (Expiry(q), Expiry(q) + grace + 1);
    var issue := [IssueSet(key, q, fp, 0, 0)];
    var read := issue + [CleanupGet(0, key, expiry, expiry)];
    assert issue == [] + issue;
    AfterOne([], issue[0], grace);
    AfterOne(issue, CleanupGet(0, key, expiry, expiry), grace);
    AfterOne(read, IssueSet(key, q, fp, gone, gone), grace);
    AfterOne(StaleCleanup(key, q, fp, grace), CleanupDel(0), grace);
  }
}
