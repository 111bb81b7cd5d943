/** The in-memory token registry: a class over one mutable map, specified by functions on that map. */
module TokenRegistry {
  import opened Wrappers
  import opened Tokens

  type Records = map<Digest, Record>

  /** The arguments of issueToken. `ttlMs` and `maxUses` are None when they are not integers. */
  datatype Request = Request(
    scope: string,
    sessionId: Option<string>,
    hpc: Option<string>,
    origin: Option<string>,
    ttlMs: Option<int>,
    maxUses: Option<int>,
    metadata: map<string, string>)

  const MIN_TOKEN_LENGTH := 16
  const MAX_TOKEN_LENGTH := 4096
  const MAX_BINDING_LENGTH := 512
  const MAX_MAX_USES := 1000
  const FINGERPRINT_PREFIX := "sha256:"

  predicate LegalToken(token: string) {
    MIN_TOKEN_LENGTH <= |token| <= MAX_TOKEN_LENGTH
  }

  /** The checks issueToken makes on scope, ttl and maxUses, in that order. */
  function CheckRequest(q: Request): Option<Code> {
    if q.scope !in SCOPES then Some(InvalidScope)
    else if q.ttlMs.None? || q.ttlMs.value <= 0 then Some(InvalidTtl)
    else if q.maxUses.None? || !(1 <= q.maxUses.value <= MAX_MAX_USES) then Some(InvalidMaxUses)
    else None
  }

  predicate BindingsFit(q: Request) {
    forall b <- [q.sessionId, q.hpc, q.origin] :: b.Some? ==> |b.value| <= MAX_BINDING_LENGTH
  }

  /** An absent or empty binding value is stored as undefined. */
  function Bound(value: Option<string>): Option<string> {
    if value == Some("") then None else value
  }

  function NewRecord(q: Request, fingerprint: string, now: int): Record
    requires CheckRequest(q).None?
  {
    Record(q.scope, Bound(q.sessionId), Bound(q.hpc), Bound(q.origin), now, now + q.ttlMs.value,
           q.maxUses.value, 0, false, q.metadata, fingerprint)
  }

  function Issue(s: Records, token: string, q: Request, fingerprint: string, now: int)
    : (Records, Result<Record, Code>)
  {
    if CheckRequest(q).Some? then (s, Err(CheckRequest(q).value))
    else if Sha256(token) in s then (s, Err(DuplicateToken))
    else if !BindingsFit(q) then (s, Err(InvalidBinding))
    else
      var record := NewRecord(q, fingerprint, now);
      (s[Sha256(token) := record], Ok(record))
  }

  /** A request is granted exactly when its scope is one of the four, its time to live and uses are integers in
      range, its bindings are short enough and its value is new. The record then carries what was asked for,
      unused and unrevoked, and nothing else changes. */
  lemma IssuedExactly(s: Records, token: string, q: Request, fp: string, now: int)
    ensures var (s', r) := Issue(s, token, q, fp, now);
      && (r.Ok? <==>
            && q.scope in {"slaif.launch", "slaif.relay", "slaif.jobReport", "slaif.workload"}
            && q.ttlMs.Some? && q.ttlMs.value >= 1
            && q.maxUses.Some? && 1 <= q.maxUses.value <= 1000
            && (q.sessionId.Some? ==> |q.sessionId.value| <= 512)
            && (q.hpc.Some? ==> |q.hpc.value| <= 512)
            && (q.origin.Some? ==> |q.origin.value| <= 512)
            && Sha256(token) !in s)
      && (r.Err? ==> s' == s)
      && (r == Err(InvalidScope) <==>
            q.scope !in {"slaif.launch", "slaif.relay", "slaif.jobReport", "slaif.workload"})
      && (r == Err(InvalidTtl) ==> q.ttlMs.None? || q.ttlMs.value <= 0)
      && (r == Err(InvalidMaxUses) ==> q.maxUses.None? || !(1 <= q.maxUses.value <= 1000))
      && (r == Err(DuplicateToken) ==> Sha256(token) in s)
      && (r == Err(InvalidBinding) ==>
            Sha256(token) !in s && exists b <- [q.sessionId, q.hpc, q.origin] :: b.Some? && |b.value| > 512)
      && (r.Ok? ==>
            && s' == s[Sha256(token) := r.value] && Live(r.value, now)
            && r.value.used == 0 && r.value.maxUses == q.maxUses.value
            && r.value.createdAt == now && r.value.expiresAt == now + q.ttlMs.value
            && r.value.scope == q.scope && r.value.metadata == q.metadata && r.value.fingerprint == fp
            && (r.value.sessionId == q.sessionId || (q.sessionId == Some("") && r.value.sessionId == None))
            && (r.value.hpc == q.hpc || (q.hpc == Some("") && r.value.hpc == None))
            && (r.value.origin == q.origin || (q.origin == Some("") && r.value.origin == None)))
  {
    var bindings := [q.sessionId, q.hpc, q.origin];
    assert bindings[0] in bindings && bindings[1] in bindings && bindings[2] in bindings;
  }

  function Lookup(s: Records, token: string): Result<Record, Code> {
    if !LegalToken(token) then Err(MissingOrMalformedToken)
    else if Sha256(token) !in s then Err(UnknownToken)
    else Ok(s[Sha256(token)])
  }

  function Validate(s: Records, token: string, e: Expected, now: int): Result<Record, Code> {
    match Lookup(s, token)
    case Err(code) => Err(code)
    case Ok(r) => match CheckRecord(r, e, now) case Some(code) => Err(code) case None => Ok(r)
  }

  function Consume(s: Records, token: string, e: Expected, now: int): (Records, Result<Record, Code>) {
    match Validate(s, token, e, now)
    case Err(code) => (s, Err(code))
    case Ok(r) =>
      var spent := r.(used := r.used + 1);
      (s[Sha256(token) := spent], Ok(spent))
  }

  /** A token is granted exactly when its length is legal and the record of its value is live and meets the
      expectation. A validate changes nothing; a consume adds one use to that record and changes nothing else. */
  lemma GrantedExactly(s: Records, token: string, e: Expected, now: int)
    ensures var d, (s', r) := Sha256(token), Consume(s, token, e, now);
      && (Validate(s, token, e, now).Ok? <==>
            16 <= |token| <= 4096 && d in s && Live(s[d], now) && Meets(s[d], e))
      && (r.Ok? <==> Validate(s, token, e, now).Ok?)
      && (r.Ok? ==>
            && Validate(s, token, e, now) == Ok(s[d])
            && r.value == s[d].(used := s[d].used + 1) && s' == s[d := r.value])
      && (r.Err? ==> s' == s && r == Validate(s, token, e, now))
      && (Validate(s, token, e, now) == Err(MissingOrMalformedToken) <==> !(16 <= |token| <= 4096))
      && (Validate(s, token, e, now) == Err(UnknownToken) <==> 16 <= |token| <= 4096 && d !in s)
  {
    if Sha256(token) in s {
      CheckedExactly(s[Sha256(token)], e, now);
    }
  }

  predicate HasPrefix(text: string, prefix: string) {
    prefix <= text
  }

  /** The record that revokeToken marks: by token value, or else any record with that fingerprint. */
  ghost function RevokeTarget(s: Records, target: string): Option<Digest> {
    if !HasPrefix(target, FINGERPRINT_PREFIX) && target != "" && Sha256(target) in s then Some(Sha256(target))
    else if target != "" && exists d <- s :: s[d].fingerprint == target then
      var d :| d in s && s[d].fingerprint == target;
      Some(d)
    else None
  }

  ghost function Revoke(s: Records, target: string): Records {
    match RevokeTarget(s, target)
    case None => s
    case Some(d) => s[d := s[d].(revoked := true)]
  }

  /** What survives a cleanup at `now`. */
  function Unexpired(s: Records, now: int): Records {
    map d | d in s && now < s[d].expiresAt :: s[d]
  }

  /** What one revokeToken call may do: with several records of the same fingerprint, which one the
      scan meets first is left open. */
  ghost predicate Revokes(before: Records, target: string, after: Records, ok: bool) {
    if !HasPrefix(target, FINGERPRINT_PREFIX) && target != "" && Sha256(target) in before then
      ok && after == before[Sha256(target) := before[Sha256(target)].(revoked := true)]
    else if target != "" && exists d <- before :: before[d].fingerprint == target then
      ok && exists d <- before :: before[d].fingerprint == target && after == before[d := before[d].(revoked := true)]
    else
      !ok && after == before
  }

  lemma RevokeIsAllowed(s: Records, target: string)
    ensures Revokes(s, target, Revoke(s, target), RevokeTarget(s, target).Some?)
  {
    var target' := RevokeTarget(s, target);
    if target'.Some? {
      assert Revoke(s, target) == s[target'.value := s[target'.value].(revoked := true)];
    }
  }

  class TokenRegistry {
    var records: Records
    const fingerprintOf: Digest -> string

    constructor (fingerprintOf: Digest -> string)
      ensures records == map[] && this.fingerprintOf == fingerprintOf
    {
      records := map[];
      this.fingerprintOf := fingerprintOf;
    }

    method IssueToken(token: string, q: Request, now: int) returns (r: Result<Record, Code>)
      modifies this
      ensures (records, r) == Issue(old(records), token, q, fingerprintOf(Sha256(token)), now)
    {
      var refused := CheckRequest(q);
      if refused.Some? {
        return Err(refused.value);
      }
      var hash := Sha256(token);
      if hash in records {
        return Err(DuplicateToken);
      }
      if !BindingsFit(q) {
        return Err(InvalidBinding);
      }
      var record := NewRecord(q, fingerprintOf(hash), now);
      records := records[hash := record];
      r := Ok(record);
    }

    method ValidateToken(token: string, e: Expected, now: int) returns (r: Result<Record, Code>)
      ensures r == Validate(records, token, e, now)
    {
      var found := Lookup(records, token);
      if found.Err? {
        return Err(found.error);
      }
      var refused := CheckRecord(found.value, e, now);
      if refused.Some? {
        return Err(refused.value);
      }
      r := found;
    }

    method ConsumeToken(token: string, e: Expected, now: int) returns (r: Result<Record, Code>)
      modifies this
      ensures (records, r) == Consume(old(records), token, e, now)
    {
      r := ValidateToken(token, e, now);
      if r.Ok? {
        var spent := r.value.(used := r.value.used + 1);
        records := records[Sha256(token) := spent];
        r := Ok(spent);
      }
    }

    method RevokeToken(target: string) returns (ok: bool)
      modifies this
      ensures Revokes(old(records), target, records, ok)
    {
      if target == "" {
        return false;
      }
      if !HasPrefix(target, FINGERPRINT_PREFIX) && Sha256(target) in records {
        records := records[Sha256(target) := records[Sha256(target)].(revoked := true)];
        return true;
      }
      var rest := records.Keys;
      while rest != {}
        invariant rest <= records.Keys && records == old(records)
        invariant forall d <- records :: d !in rest ==> records[d].fingerprint != target
        decreases rest
      {
        var d :| d in rest;
        if records[d].fingerprint == target {
          records := records[d := records[d].(revoked := true)];
          return true;
        }
        rest := rest - {d};
      }
      ok := false;
    }

    method CleanupExpired(now: int) returns (removed: nat)
      modifies this
      ensures records == Unexpired(old(records), now)
      ensures removed == |old(records)| - |records|
    {
      removed := 0;
      ghost var before := records;
      var rest := records.Keys;
      while rest != {}
        invariant rest <= records.Keys <= before.Keys
        invariant forall d <- records :: records[d] == before[d]
        invariant forall d <- before :: d in records <==> d in rest || now < before[d].expiresAt
        invariant removed == |before| - |records|
        decreases rest
      {
        var d :| d in rest;
        if records[d].expiresAt <= now {
          var kept := map x | x in records && x != d :: records[x];
          assert kept.Keys == records.Keys - {d};
          assert |kept.Keys| == |records.Keys| - 1;
          records := kept;
          removed := removed + 1;
        }
        rest := rest - {d};
      }
      assert records == Unexpired(before, now);
    }
  }
}
