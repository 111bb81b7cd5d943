/** Serial histories with one clock: the Redis store refines the memory registry. */
module RedisRefinement {
  import opened Wrappers
  import opened Tokens
  import opened TokenRegistry
  import opened TokenHistories
  import Redis = RedisStore

  ghost function Apply(s: Redis.Entries, c: Call, grace: nat): (Redis.Entries, Verdict) {
    match c.op
    case IssueOp(token, q, fp) =>
      var (s', r) := Redis.IssueSpec(s, token, q, fp, c.now, grace); (s', Granted(r))
    case ValidateOp(token, e) => (s, Granted(Redis.ValidateSpec(s, token, e, c.now)))
    case ConsumeOp(token, e) => var (s', r) := Redis.ConsumeSpec(s, token, e, c.now); (s', Granted(r))
    case RevokeOp(target) => (Redis.RevokeSpec(s, target, c.now, grace), None)
    case CleanupOp => (Redis.CleanupSpec(s, c.now), None)
  }

  ghost function Verdicts(s: Redis.Entries, h: seq<Call>, grace: nat): seq<Verdict>
    decreases |h|
  {
    if h == [] then []
    else
      var (s', v) := Apply(s, h[0], grace);
      (if Decides(h[0].op) then [v] else []) + Verdicts(s', h[1..], grace)
  }

  /** Tokens of legal length, and consumes whose bindings the script and `checkRecord` read alike. */
  predicate Comparable(op: Op) {
    match op
    case IssueOp(token, _, _) => LegalToken(token)
    case ConsumeOp(_, e) => PlainBindings(e) || Unsatisfiable(e.metadata)
    case _ => true
  }

  /** What the server returns is what the registry holds; what only the registry holds has expired,
      and a deadline never comes before its record's expiry. */
  ghost predicate Refines(redis: Redis.Entries, memory: Records, now: int) {
    && (forall d <- redis :: redis[d].record.expiresAt <= redis[d].deadline)
    && (forall d <- redis | now <= redis[d].deadline :: d in memory && memory[d] == redis[d].record)
    && (forall d <- memory | Redis.Get(redis, d, now).None? :: memory[d].expiresAt <= now)
    && (forall d <- memory :: LegalToken(d.preimage))
  }

  lemma RefinesLater(redis: Redis.Entries, memory: Records, now: int, later: int)
    requires Refines(redis, memory, now) && now <= later
    ensures Refines(redis, memory, later)
  {
  }

  lemma RefinesIssue(redis: Redis.Entries, memory: Records, now: int, token: string, q: Request, fp: string, grace: nat)
    requires Refines(redis, memory, now) && LegalToken(token) && Sha256(token) !in memory
    ensures Refines(Redis.IssueSpec(redis, token, q, fp, now, grace).0, Issue(memory, token, q, fp, now).0, now)
    ensures Redis.IssueSpec(redis, token, q, fp, now, grace).1 == Issue(memory, token, q, fp, now).1
  {
  }

  lemma RefinesValidate(redis: Redis.Entries, memory: Records, now: int, token: string, e: Expected)
    requires Refines(redis, memory, now)
    ensures Granted(Redis.ValidateSpec(redis, token, e, now)) == Granted(Validate(memory, token, e, now))
  {
  }

  lemma RefinesConsume(redis: Redis.Entries, memory: Records, now: int, token: string, e: Expected)
    requires Refines(redis, memory, now) && (PlainBindings(e) || Unsatisfiable(e.metadata))
    ensures Refines(Redis.ConsumeSpec(redis, token, e, now).0, Consume(memory, token, e, now).0, now)
    ensures Granted(Redis.ConsumeSpec(redis, token, e, now).1) == Granted(Consume(memory, token, e, now).1)
  {
    var d := Sha256(token);
    ChecksAgreeExactly(e);
    if LegalToken(token) && Redis.Get(redis, d, now).Some? {
      assert LuaConsume(Some(memory[d]), e, now).Ok? <==> CheckRecord(memory[d], e, now).None?;
    }
  }

  /** Marking one record on both sides, or a record that only the registry still holds. */
  lemma RefinesMark(redis: Redis.Entries, memory: Records, now: int, d: Digest, grace: nat)
    requires Refines(redis, memory, now)
    ensures Redis.Get(redis, d, now).Some? ==>
      && d in memory
      && Refines(redis[d := Redis.Marked(redis[d], now, grace)], memory[d := memory[d].(revoked := true)], now)
    ensures Redis.Get(redis, d, now).None? && d in memory ==>
      Refines(redis, memory[d := memory[d].(revoked := true)], now)
  {
  }

  lemma RefinesRevoke(redis: Redis.Entries, memory: Records, issued: Issued, now: int, target: string, grace: nat)
    requires Refines(redis, memory, now) && Traced(memory, issued)
    ensures Refines(Redis.RevokeSpec(redis, target, now, grace), Revoke(memory, target), now)
  {
    var a, b := Redis.RevocableKey(redis, target, now), RevokeTarget(memory, target);
    if a.Some? {
      assert Redis.Get(redis, a.value, now).Some?;
      assert a.value in memory && (a.value == Sha256(target) || memory[a.value].fingerprint == target);
      assert b == a;
      RefinesMark(redis, memory, now, a.value, grace);
    } else if b.Some? {
      assert Redis.Get(redis, b.value, now).None?;
      RefinesMark(redis, memory, now, b.value, grace);
    }
  }

  lemma RefinesCleanup(redis: Redis.Entries, memory: Records, now: int)
    requires Refines(redis, memory, now)
    ensures Refines(Redis.CleanupSpec(redis, now), Unexpired(memory, now), now)
  {
  }

  lemma RefinesStep(redis: Redis.Entries, memory: Records, issued: Issued, clock: int, c: Call, grace: nat)
    requires Refines(redis, memory, clock) && Traced(memory, issued) && LegalCall(issued, clock, c) && Comparable(c.op)
    ensures Refines(Apply(redis, c, grace).0, TokenHistories.Apply(memory, c).0, c.now)
    ensures Apply(redis, c, grace).1 == TokenHistories.Apply(memory, c).1
  {
    RefinesLater(redis, memory, clock, c.now);
    match c.op
    case IssueOp(token, q, fp) => RefinesIssue(redis, memory, c.now, token, q, fp, grace);
    case ValidateOp(token, e) => RefinesValidate(redis, memory, c.now, token, e);
    case ConsumeOp(token, e) => RefinesConsume(redis, memory, c.now, token, e);
    case RevokeOp(target) => RefinesRevoke(redis, memory, issued, c.now, target, grace);
    case CleanupOp => RefinesCleanup(redis, memory, c.now);
  }

  lemma {:induction false} RunsRefine(
      redis: Redis.Entries, memory: Records, issued: Issued, clock: int, h: seq<Call>, grace: nat)
    requires Refines(redis, memory, clock) && Traced(memory, issued) && Legal(issued, clock, h)
    requires forall c <- h :: Comparable(c.op)
    ensures Verdicts(redis, h, grace) == TokenHistories.Verdicts(memory, h)
    decreases |h|
  {
    if h != [] {
      RefinesStep(redis, memory, issued, clock, h[0], grace);
      TracedStep(memory, issued, clock, h[0]);
      RunsRefine(Apply(redis, h[0], grace).0, TokenHistories.Apply(memory, h[0]).0,
                 NextIssued(issued, h[0].op), h[0].now, h[1..], grace);
    }
  }

  /** Issue, validate and consume are granted by one store exactly when by the other, with equal records. */
  lemma RedisRefinesMemory(h: seq<Call>, clock: int, grace: nat)
    requires Legal(map[], clock, h) && forall c <- h :: Comparable(c.op)
    ensures Verdicts(map[], h, grace) == TokenHistories.Verdicts(map[], h)
  {
    RunsRefine(map[], map[], map[], clock, h, grace);
  }

  /** The binding hypothesis cannot be weakened: for any other binding some live record is granted by
      the script and refused by the registry. */
  lemma IncomparableBindingsDiffer(e: Expected, token: string)
    requires !(PlainBindings(e) || Unsatisfiable(e.metadata)) && LegalToken(token)
    ensures exists r: Record ::
      && Live(r, 0)
      && Redis.ConsumeSpec(map[Sha256(token) := Redis.Entry(r, 1)], token, e, 0).1.Ok?
      && Consume(map[Sha256(token) := r], token, e, 0).1.Err?
  {
    var r := ScriptWitness(e);
    ChecksAgreeExactly(e);
    assert LuaConsume(Some(r), e, 0).Ok?;
    assert CheckRecord(r, e, 0).Some?;
    assert Live(r, 0);
    assert Redis.ConsumeSpec(map[Sha256(token) := Redis.Entry(r, 1)], token, e, 0).1.Ok?;
  }
}
