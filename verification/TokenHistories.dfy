/** Serial histories of registry calls: cleanup is unobservable, and a dead token never comes back. */
module TokenHistories {
  import opened Wrappers
  import opened Tokens
  import opened TokenRegistry
  import opened Runs

  datatype Op =
    | IssueOp(token: string, request: Request, fingerprint: string)
    | ValidateOp(token: string, expected: Expected)
    | ConsumeOp(token: string, expected: Expected)
    | RevokeOp(target: string)
    | CleanupOp

  datatype Call = Call(now: int, op: Op)

  /** The record a call hands out, or None when it refuses or hands out nothing. */
  type Verdict = Option<Record>

  function Granted(r: Result<Record, Code>): Verdict {
    match r case Ok(record) => Some(record) case Err(_) => None
  }

  /** Calls whose outcome is a decision about one token. */
  predicate Decides(op: Op) {
    op.IssueOp? || op.ValidateOp? || op.ConsumeOp?
  }

  ghost function Apply(s: Records, c: Call): (Records, Verdict) {
    match c.op
    case IssueOp(token, q, fp) => var (s', r) := Issue(s, token, q, fp, c.now); (s', Granted(r))
    case ValidateOp(token, e) => (s, Granted(Validate(s, token, e, c.now)))
    case ConsumeOp(token, e) => var (s', r) := Consume(s, token, e, c.now); (s', Granted(r))
    case RevokeOp(target) => (Revoke(s, target), None)
    case CleanupOp => (Unexpired(s, c.now), None)
  }

  ghost function Serial(): Machine<Records, Call, Verdict> {
    (s: Records, c: Call, _: nat) => Apply(s, c)
  }

  ghost function After(s: Records, h: seq<Call>): Records {
    StateAfter(Serial(), s, h)
  }

  /** The verdicts of the deciding calls, in order. */
  ghost function Verdicts(s: Records, h: seq<Call>): seq<Verdict>
    decreases |h|
  {
    if h == [] then []
    else
      var (s', v) := Apply(s, h[0]);
      (if Decides(h[0].op) then [v] else []) + Verdicts(s', h[1..])
  }

  function WithoutCleanups(h: seq<Call>): seq<Call> {
    if h == [] then []
    else (if h[0].op.CleanupOp? then [] else [h[0]]) + WithoutCleanups(h[1..])
  }

  /** Fingerprints of the tokens issued so far. */
  type Issued = map<Digest, string>

  function NextIssued(issued: Issued, op: Op): Issued {
    if op.IssueOp? then issued[Sha256(op.token) := op.fingerprint] else issued
  }

  /** The call comes no earlier than `clock`; an issued value is new and so is its fingerprint. */
  ghost predicate LegalCall(issued: Issued, clock: int, c: Call) {
    && clock <= c.now
    && (c.op.IssueOp? ==>
          && Sha256(c.op.token) !in issued
          && c.op.fingerprint !in issued.Values
          && HasPrefix(c.op.fingerprint, FINGERPRINT_PREFIX))
  }

  /** A nondecreasing clock, no value issued twice and no two issued values with one fingerprint. */
  ghost predicate Legal(issued: Issued, clock: int, h: seq<Call>)
    decreases |h|
  {
    h != [] ==> LegalCall(issued, clock, h[0]) && Legal(NextIssued(issued, h[0].op), h[0].now, h[1..])
  }

  ghost predicate Injective(issued: Issued) {
    forall d, d' | d in issued && d' in issued && issued[d] == issued[d'] :: d == d'
  }

  /** Every record carries the fingerprint its token was issued with. */
  ghost predicate Traced(s: Records, issued: Issued) {
    && Injective(issued)
    && (forall d <- issued :: HasPrefix(issued[d], FINGERPRINT_PREFIX))
    && (forall d <- s :: d in issued && s[d].fingerprint == issued[d])
  }

  lemma NextInjective(issued: Issued, d: Digest, fp: string)
    requires Injective(issued) && fp !in issued.Values
    ensures Injective(issued[d := fp])
  {
    assert forall x <- issued :: issued[x] in issued.Values;
  }

  lemma TracedStep(s: Records, issued: Issued, clock: int, c: Call)
    requires Traced(s, issued) && LegalCall(issued, clock, c)
    ensures Traced(Apply(s, c).0, NextIssued(issued, c.op))
  {
    if c.op.IssueOp? {
      NextInjective(issued, Sha256(c.op.token), c.op.fingerprint);
    }
  }

  // ------------------------------------------------------------------ cleanup is transparent

  /** `swept` is `full` with some records that have expired by `now` taken out. */
  ghost predicate Sweeps(swept: Records, full: Records, now: int) {
    && (forall d <- swept :: d in full && full[d] == swept[d])
    && (forall d <- full | d !in swept :: full[d].expiresAt <= now)
  }

  lemma SweepsRevoke(swept: Records, full: Records, issued: Issued, now: int, target: string)
    requires Sweeps(swept, full, now) && Traced(full, issued)
    ensures Sweeps(Revoke(swept, target), Revoke(full, target), now)
  {
    var a, b := RevokeTarget(swept, target), RevokeTarget(full, target);
    if a.Some? && b.Some? {
      assert a == b;
    } else if a.Some? {
      assert false;
    }
  }

  lemma SweepsIssue(swept: Records, full: Records, now: int, token: string, q: Request, fp: string)
    requires Sweeps(swept, full, now) && Sha256(token) !in full
    ensures Sweeps(Issue(swept, token, q, fp, now).0, Issue(full, token, q, fp, now).0, now)
    ensures Issue(swept, token, q, fp, now).1 == Issue(full, token, q, fp, now).1
  {
  }

  lemma SweepsValidate(swept: Records, full: Records, now: int, token: string, e: Expected)
    requires Sweeps(swept, full, now)
    ensures Granted(Validate(swept, token, e, now)) == Granted(Validate(full, token, e, now))
  {
    var d := Sha256(token);
    if d in full && d !in swept {
      assert CheckRecord(full[d], e, now).Some?;
    }
  }

  lemma SweepsConsume(swept: Records, full: Records, now: int, token: string, e: Expected)
    requires Sweeps(swept, full, now)
    ensures Sweeps(Consume(swept, token, e, now).0, Consume(full, token, e, now).0, now)
    ensures Granted(Consume(swept, token, e, now).1) == Granted(Consume(full, token, e, now).1)
  {
    SweepsValidate(swept, full, now, token, e);
  }

  lemma SweepsStep(swept: Records, full: Records, issued: Issued, clock: int, c: Call)
    requires Sweeps(swept, full, clock) && Traced(full, issued) && LegalCall(issued, clock, c) && !c.op.CleanupOp?
    ensures Sweeps(Apply(swept, c).0, Apply(full, c).0, c.now)
    ensures Decides(c.op) ==> Apply(swept, c).1 == Apply(full, c).1
  {
    assert Sweeps(swept, full, c.now);
    match c.op
    case IssueOp(token, q, fp) => SweepsIssue(swept, full, c.now, token, q, fp);
    case ValidateOp(token, e) => SweepsValidate(swept, full, c.now, token, e);
    case ConsumeOp(token, e) => SweepsConsume(swept, full, c.now, token, e);
    case RevokeOp(target) => SweepsRevoke(swept, full, issued, c.now, target);
  }

  lemma {:induction false} SweptRunsAgree(swept: Records, full: Records, issued: Issued, clock: int, h: seq<Call>)
    requires Sweeps(swept, full, clock) && Traced(full, issued) && Legal(issued, clock, h)
    ensures Verdicts(swept, h) == Verdicts(full, WithoutCleanups(h))
    decreases |h|
  {
    if h != [] {
      var c, rest := h[0], h[1..];
      if c.op.CleanupOp? {
        assert Sweeps(Unexpired(swept, c.now), full, c.now);
        SweptRunsAgree(Unexpired(swept, c.now), full, issued, c.now, rest);
        assert WithoutCleanups(h) == WithoutCleanups(rest);
        assert Verdicts(swept, h) == Verdicts(Unexpired(swept, c.now), rest);
      } else {
        SweepsStep(swept, full, issued, clock, c);
        TracedStep(full, issued, clock, c);
        SweptRunsAgree(Apply(swept, c).0, Apply(full, c).0, NextIssued(issued, c.op), c.now, rest);
        assert WithoutCleanups(h) == [c] + WithoutCleanups(rest);
      }
    }
  }

  /** Two histories that differ only in their cleanup calls grant the same records, call by call. */
  lemma CleanupIsTransparent(h: seq<Call>, h': seq<Call>, clock: int)
    requires Legal(map[], clock, h) && Legal(map[], clock, h')
    requires WithoutCleanups(h) == WithoutCleanups(h')
    ensures Verdicts(map[], h) == Verdicts(map[], h')
  {
    SweptRunsAgree(map[], map[], map[], clock, h);
    SweptRunsAgree(map[], map[], map[], clock, h');
  }

  // ------------------------------------------------------------------ dead tokens stay dead

  ghost predicate Dead(s: Records, token: string, now: int) {
    Sha256(token) in s ==> !Live(s[Sha256(token)], now)
  }

  predicate Reissues(token: string, h: seq<Call>) {
    exists c <- h :: c.op.IssueOp? && c.op.token == token
  }

  function EndTime(clock: int, h: seq<Call>): int {
    if h == [] then clock else Last(h).now
  }

  predicate Nondecreasing(clock: int, h: seq<Call>) {
    h != [] ==> Nondecreasing(clock, Init(h)) && EndTime(clock, Init(h)) <= Last(h).now
  }

  lemma {:induction false} DeadAfter(s: Records, token: string, clock: int, h: seq<Call>)
    requires Dead(s, token, clock) && Nondecreasing(clock, h) && !Reissues(token, h)
    ensures Dead(After(s, h), token, EndTime(clock, h))
  {
    if h != [] {
      assert Last(h) in h && forall c <- Init(h) :: c in h;
      DeadAfter(s, token, clock, Init(h));
    }
  }

  /** Once rejected as revoked, expired or used up, a token is rejected by every later validate and
      consume, whatever calls come in between, as long as its value is not issued again. */
  lemma DeadTokensStayDead(s: Records, token: string, e: Expected, clock: int, h: seq<Call>, e': Expected, now: int)
    requires Validate(s, token, e, clock) in {Err(RevokedToken), Err(ExpiredToken), Err(TokenUseExceeded)}
    requires Nondecreasing(clock, h) && !Reissues(token, h) && EndTime(clock, h) <= now
    ensures Validate(After(s, h), token, e', now).Err?
    ensures Consume(After(s, h), token, e', now).1.Err? && Consume(After(s, h), token, e', now).0 == After(s, h)
  {
    DeadAfter(s, token, clock, h);
  }

  /** `target` can only mean this token: it is its value, or a fingerprint that no other record has. */
  ghost predicate Designates(s: Records, target: string, token: string) {
    if HasPrefix(target, FINGERPRINT_PREFIX) then forall d <- s :: s[d].fingerprint == target <==> d == Sha256(token)
    else target == token && target != ""
  }

  /** A revoke of a held token succeeds, and no later validate or consume accepts it until it is issued again. */
  lemma RevokedTokensStayRefused(
      s: Records, target: string, token: string, s': Records, ok: bool, clock: int, h: seq<Call>, e: Expected, now: int)
    requires Sha256(token) in s && Designates(s, target, token) && Revokes(s, target, s', ok)
    requires Nondecreasing(clock, h) && !Reissues(token, h) && EndTime(clock, h) <= now
    ensures ok
    ensures Validate(After(s', h), token, e, now).Err?
    ensures Consume(After(s', h), token, e, now).1.Err? && Consume(After(s', h), token, e, now).0 == After(s', h)
  {
    if HasPrefix(target, FINGERPRINT_PREFIX) {
      assert s[Sha256(token)].fingerprint == target;
    }
    assert Dead(s', token, clock);
    DeadAfter(s', token, clock, h);
  }

  // ------------------------------------------------------------------ shared fingerprints

  /** A record that is neither expired nor revoked shares its fingerprint `fp` with another. */
  ghost predicate Entangled(s: Records, fp: string, now: int) {
    exists d, d' | d in s && d' in s && d != d' ::
      s[d].fingerprint == fp == s[d'].fingerprint && now < s[d].expiresAt && !s[d].revoked
  }

  /** Every revoke of `fp`, in whatever order it scans and whichever expired records have been swept out
      before, leaves the same unexpired records. */
  ghost predicate RevokesAlike(s: Records, fp: string, now: int) {
    forall a, a', b, b', x, y |
        Sweeps(a, s, now) && Revokes(a, fp, a', x) && Sweeps(b, s, now) && Revokes(b, fp, b', y) ::
      Unexpired(a', now) == Unexpired(b', now)
  }

  lemma UntangledRevoke(s: Records, fp: string, now: int, a: Records, a': Records, ok: bool)
    requires HasPrefix(fp, FINGERPRINT_PREFIX) && !Entangled(s, fp, now) && Sweeps(a, s, now) && Revokes(a, fp, a', ok)
    ensures var marked := map d | d in s && now < s[d].expiresAt ::
        if s[d].fingerprint == fp then s[d].(revoked := true) else s[d];
      Unexpired(a', now) == marked
  {
    if ok {
      var d :| d in a && a[d].fingerprint == fp && a' == a[d := a[d].(revoked := true)];
      forall x | x in s && now < s[x].expiresAt && s[x].fingerprint == fp && x != d ensures s[x].revoked {
      }
    }
  }

  /** What a revoke leaves does not depend on cleanups or on the scan exactly when no live record shares the
      fingerprint. */
  lemma RevokesAlikeExactly(s: Records, fp: string, now: int)
    requires HasPrefix(fp, FINGERPRINT_PREFIX)
    ensures RevokesAlike(s, fp, now) <==> !Entangled(s, fp, now)
  {
    if Entangled(s, fp, now) {
      var d, d' :| d in s && d' in s && d != d'
        && s[d].fingerprint == fp == s[d'].fingerprint && now < s[d].expiresAt && !s[d].revoked;
      var a', b' := s[d := s[d].(revoked := true)], s[d' := s[d'].(revoked := true)];
      assert Revokes(s, fp, a', true) && Revokes(s, fp, b', true) && Sweeps(s, s, now);
      assert Unexpired(a', now)[d] != Unexpired(b', now)[d];
    } else {
      forall a, a', b, b', x, y |
          Sweeps(a, s, now) && Revokes(a, fp, a', x) && Sweeps(b, s, now) && Revokes(b, fp, b', y)
        ensures Unexpired(a', now) == Unexpired(b', now)
      {
        UntangledRevoke(s, fp, now, a, a', x);
        UntangledRevoke(s, fp, now, b, b', y);
      }
    }
  }

  // -- the failing input as calls

  /** What one call may do, with the scan order of a revoke left open. */
  ghost predicate MayStep(s: Records, c: Call, s': Records) {
    if c.op.RevokeOp? then exists ok :: Revokes(s, c.op.target, s', ok) else s' == Apply(s, c).0
  }

  ghost predicate MayLead(s: Records, h: seq<Call>, s': Records)
    decreases |h|
  {
    if h == [] then s' == s else exists m :: MayStep(s, h[0], m) && MayLead(m, h[1..], s')
  }

  lemma MayLeadOn(s: Records, c: Call, h: seq<Call>, s': Records)
    ensures MayLead(s, [c] + h, s') <==> exists m :: MayStep(s, c, m) && MayLead(m, h, s')
  {
    assert ([c] + h)[1..] == h;
  }

  /** Two tokens with one fingerprint, the first of them living for 1 ms. */
  predicate Colliding(a: string, b: string, short: Request, long: Request, fp: string) {
    && a != b && LegalToken(b) && HasPrefix(fp, FINGERPRINT_PREFIX)
    && CheckRequest(short).None? && BindingsFit(short) && short.ttlMs == Some(1)
    && CheckRequest(long).None? && BindingsFit(long) && long.ttlMs.value > 1
  }

  function CollidingIssues(a: string, b: string, short: Request, long: Request, fp: string): seq<Call> {
    [Call(0, IssueOp(a, short, fp))] + [Call(0, IssueOp(b, long, fp))]
  }

  ghost function CollidingRecords(a: string, b: string, short: Request, long: Request, fp: string): Records
    requires Colliding(a, b, short, long, fp)
  {
    map[Sha256(a) := NewRecord(short, fp, 0), Sha256(b) := NewRecord(long, fp, 0)]
  }

  lemma AfterCollidingIssues(
      a: string, b: string, short: Request, long: Request, fp: string, h: seq<Call>, s': Records)
    requires Colliding(a, b, short, long, fp)
    ensures MayLead(map[], CollidingIssues(a, b, short, long, fp) + h, s')
       <==> MayLead(CollidingRecords(a, b, short, long, fp), h, s')
  {
    var first, second := Call(0, IssueOp(a, short, fp)), Call(0, IssueOp(b, long, fp));
    var s1: Records := map[Sha256(a) := NewRecord(short, fp, 0)];
    assert Apply(map[], first).0 == s1;
    assert Apply(s1, second).0 == CollidingRecords(a, b, short, long, fp);
    MayLeadOn(s1, second, h, s');
    MayLeadOn(map[], first, [second] + h, s');
    assert CollidingIssues(a, b, short, long, fp) + h == [first] + ([second] + h);
  }

  /** After these issues a revoke of the shared fingerprint may leave the second token live, as it meets the
      expired one first. With a cleanup before the revoke it never does. */
  lemma SharedFingerprintTellsCleanup(a: string, b: string, short: Request, long: Request, fp: string)
    requires Colliding(a, b, short, long, fp)
    ensures var issues := CollidingIssues(a, b, short, long, fp);
      && (exists s :: MayLead(map[], issues + [Call(1, RevokeOp(fp))], s) && Validate(s, b, ANYTHING, 1).Ok?)
      && (forall s | MayLead(map[], issues + ([Call(1, CleanupOp)] + [Call(1, RevokeOp(fp))]), s) ::
            Validate(s, b, ANYTHING, 1) == Err(RevokedToken))
  {
    var r, revoke := CollidingRecords(a, b, short, long, fp), Call(1, RevokeOp(fp));
    var s := r[Sha256(a) := r[Sha256(a)].(revoked := true)];
    AfterCollidingIssues(a, b, short, long, fp, [revoke], s);
    assert Revokes(r, fp, s, true);
    assert MayStep(r, revoke, s) && MayLead(s, [], s);
    MayLeadOn(r, revoke, [], s);
    assert [revoke] + [] == [revoke];
    forall s | MayLead(map[], CollidingIssues(a, b, short, long, fp) + ([Call(1, CleanupOp)] + [revoke]), s)
      ensures Validate(s, b, ANYTHING, 1) == Err(RevokedToken)
    {
      AfterCollidingIssues(a, b, short, long, fp, [Call(1, CleanupOp)] + [revoke], s);
      SweptRevoke(a, b, short, long, fp, s);
    }
  }

  lemma SweptRevoke(a: string, b: string, short: Request, long: Request, fp: string, s: Records)
    requires Colliding(a, b, short, long, fp)
    requires MayLead(CollidingRecords(a, b, short, long, fp), [Call(1, CleanupOp)] + [Call(1, RevokeOp(fp))], s)
    ensures Validate(s, b, ANYTHING, 1) == Err(RevokedToken)
  {
    var r, revoke := CollidingRecords(a, b, short, long, fp), Call(1, RevokeOp(fp));
    var swept := Unexpired(r, 1);
    MayLeadOn(r, Call(1, CleanupOp), [revoke], s);
    assert MayLead(swept, [revoke], s);
    assert [revoke] + [] == [revoke];
    MayLeadOn(swept, revoke, [], s);
    assert swept.Keys == {Sha256(b)} && swept[Sha256(b)].fingerprint == fp;
  }

  // ------------------------------------------------------------------ every use can be spent

  /** A call made `k` times. */
  function Again(c: Call, k: nat): seq<Call> {
    if k == 0 then [] else [c] + Again(c, k - 1)
  }

  lemma {:induction false} SpendsTheRest(s: Records, token: string, e: Expected, now: int, k: nat)
    requires 16 <= |token| <= 4096 && Sha256(token) in s && Meets(s[Sha256(token)], e)
    requires var r := s[Sha256(token)]; !r.revoked && now < r.expiresAt && 0 <= r.used <= r.maxUses
    ensures var verdicts, r := Verdicts(s, Again(Call(now, ConsumeOp(token, e)), k)), s[Sha256(token)];
      |verdicts| == k && forall i | 0 <= i < k ::
        verdicts[i] == (if r.used + i < r.maxUses then Some(r.(used := r.used + i + 1)) else None)
  {
    if k > 0 {
      var c, r := Call(now, ConsumeOp(token, e)), s[Sha256(token)];
      var rest := Again(c, k - 1);
      assert ([c] + rest)[0] == c && ([c] + rest)[1..] == rest;
      GrantedExactly(s, token, e, now);
      var (s', v) := Apply(s, c);
      SpendsTheRest(s', token, e, now, k - 1);
      assert Verdicts(s, [c] + rest) == [v] + Verdicts(s', rest);
    }
  }

  /** The consume of number `i` since the issue is granted exactly while uses are left, with its number. */
  predicate GrantsUse(v: Verdict, i: nat, q: Request) {
    q.maxUses.Some? && (v.Some? <==> i <= q.maxUses.value) && (v.Some? ==> v.value.used == i)
  }

  /** A granted request is good for exactly `maxUses` consumes that meet its record: the first that many are granted,
      each with its number, and all others refused. */
  lemma IssuedUsesAreGranted(
      s: Records, token: string, q: Request, fp: string, issueTime: int, e: Expected, now: int, k: nat)
    requires 16 <= |token| <= 4096
    requires Issue(s, token, q, fp, issueTime).1.Ok? && Meets(Issue(s, token, q, fp, issueTime).1.value, e)
    requires now < issueTime + q.ttlMs.value
    ensures var h := [Call(issueTime, IssueOp(token, q, fp))] + Again(Call(now, ConsumeOp(token, e)), k);
      |Verdicts(s, h)| == k + 1 && forall i | 0 < i <= k :: GrantsUse(Verdicts(s, h)[i], i, q)
  {
    var issue, rest := Call(issueTime, IssueOp(token, q, fp)), Again(Call(now, ConsumeOp(token, e)), k);
    var (s', v) := Apply(s, issue);
    IssuedExactly(s, token, q, fp, issueTime);
    SpendsTheRest(s', token, e, now, k);
    assert ([issue] + rest)[0] == issue && ([issue] + rest)[1..] == rest;
    assert Verdicts(s, [issue] + rest) == [v] + Verdicts(s', rest);
  }
}
