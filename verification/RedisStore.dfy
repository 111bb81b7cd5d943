/** The Redis token store: a server whose keys expire lazily, the store's operations as sequences of its
    commands, and the proof that a serial history cannot tell it from the memory registry. */
module RedisStore {
  import opened Wrappers
  import opened Tokens
  import opened TokenRegistry

  /** A stored record and the last instant at which the server still returns it. */
  datatype Entry = Entry(record: Record, deadline: int)

  type Entries = map<Digest, Entry>

  function Get(s: Entries, d: Digest, now: int): Option<Record> {
    if d in s && now <= s[d].deadline then Some(s[d].record) else None
  }

  /** SET with PX; with NX it only writes an absent key. */
  function Set(s: Entries, d: Digest, r: Record, ttlMs: int, onlyIfAbsent: bool, now: int): (Entries, bool) {
    if onlyIfAbsent && Get(s, d, now).Some? then (s, false) else (s[d := Entry(r, now + ttlMs)], true)
  }

  /** EVAL of the consume script: one atomic read, check and write back that keeps the deadline. The
      server's clock `now` decides expiry of the key, the caller's clock `at` expiry of the record. */
  function Eval(s: Entries, d: Digest, e: Expected, at: int, now: int): (Entries, Result<Record, Code>) {
    match LuaConsume(Get(s, d, now), e, at)
    case Err(code) => (s, Err(code))
    case Ok(r) => (s[d := Entry(r, s[d].deadline)], Ok(r))
  }

  /** `setRecord`: the time to live is recomputed from the record's expiry, and is at least 1 ms. */
  function TtlMs(r: Record, now: int, grace: nat): int {
    if r.expiresAt - now + grace < 1 then 1 else r.expiresAt - now + grace
  }

  function IssueSpec(s: Entries, token: string, q: Request, fp: string, now: int, grace: nat)
    : (Entries, Result<Record, Code>)
  {
    if CheckRequest(q).Some? then (s, Err(CheckRequest(q).value))
    else if !LegalToken(token) then (s, Err(MissingOrMalformedToken))
    else if !BindingsFit(q) then (s, Err(InvalidBinding))
    else if Get(s, Sha256(token), now).Some? then (s, Err(DuplicateToken))
    else
      var record := NewRecord(q, fp, now);
      (s[Sha256(token) := Entry(record, now + q.ttlMs.value + grace)], Ok(record))
  }

  function Find(s: Entries, token: string, now: int): Result<Record, Code> {
    if !LegalToken(token) then Err(MissingOrMalformedToken)
    else match Get(s, Sha256(token), now) case None => Err(UnknownToken) case Some(r) => Ok(r)
  }

  function ValidateSpec(s: Entries, token: string, e: Expected, now: int): Result<Record, Code> {
    match Find(s, token, now)
    case Err(code) => Err(code)
    case Ok(r) => match CheckRecord(r, e, now) case Some(code) => Err(code) case None => Ok(r)
  }

  function ConsumeSpec(s: Entries, token: string, e: Expected, now: int): (Entries, Result<Record, Code>) {
    if !LegalToken(token) then (s, Err(MissingOrMalformedToken))
    else Eval(s, Sha256(token), e, now, now)
  }

  /** The record a revoke reads: by token value, or any returned record with that fingerprint. */
  ghost function RevocableKey(s: Entries, target: string, now: int): Option<Digest> {
    if HasPrefix(target, FINGERPRINT_PREFIX) then
      if exists d <- s :: Get(s, d, now).Some? && s[d].record.fingerprint == target then
        var d :| d in s && Get(s, d, now).Some? && s[d].record.fingerprint == target;
        Some(d)
      else None
    else if Find(s, target, now).Ok? then Some(Sha256(target))
    else None
  }

  function Marked(e: Entry, now: int, grace: nat): Entry {
    Entry(e.record.(revoked := true), now + TtlMs(e.record, now, grace))
  }

  ghost function RevokeSpec(s: Entries, target: string, now: int, grace: nat): Entries {
    match RevocableKey(s, target, now)
    case None => s
    case Some(d) => s[d := Marked(s[d], now, grace)]
  }

  /** Entries the server still returns and whose record has expired are deleted. */
  function CleanupSpec(s: Entries, now: int): Entries {
    map d | d in s && !(now <= s[d].deadline && s[d].record.expiresAt <= now) :: s[d]
  }

  // ------------------------------------------------------------------ what the operations promise

  /** A validate grants exactly the returned records that are live and meet the expectation. A consume by plain
      bindings grants the same, adds one use to that record, keeps its deadline and changes nothing else. */
  lemma GrantedExactly(s: Entries, token: string, e: Expected, now: int)
    ensures var d := Sha256(token);
      ValidateSpec(s, token, e, now).Ok? <==>
        16 <= |token| <= 4096 && Get(s, d, now).Some? && Live(s[d].record, now) && Meets(s[d].record, e)
    ensures PlainBindings(e) ==>
      var d, (s', r) := Sha256(token), ConsumeSpec(s, token, e, now);
      && (r.Ok? <==> ValidateSpec(s, token, e, now).Ok?)
      && (r.Ok? ==>
            && r.value == s[d].record.(used := s[d].record.used + 1)
            && s' == s[d := Entry(r.value, s[d].deadline)])
      && (r.Err? ==> s' == s && r.error == ValidateSpec(s, token, e, now).error)
  {
    var d := Sha256(token);
    if Get(s, d, now).Some? {
      CheckedExactly(s[d].record, e, now);
      if PlainBindings(e) {
        PlainBindingsAgree(s[d].record, e, now);
      }
    }
  }

  /** A cleanup leaves of the returned records exactly those that have not expired. */
  lemma CleanedExactly(s: Entries, d: Digest, now: int)
    ensures var r := Get(s, d, now);
      Get(CleanupSpec(s, now), d, now) == if r.Some? && r.value.expiresAt <= now then None else r
  {
  }

  /** Every entry outlives its record by at least the grace period. */
  predicate DeadlinesFit(s: Entries, grace: nat) {
    forall d <- s :: s[d].record.expiresAt + grace <= s[d].deadline
  }

  /** Every operation keeps that; an issue sets the deadline to just that, and a revoke too unless the moment has
      come, when the entry lives 1 ms longer. */
  lemma DeadlinesKept(s: Entries, token: string, q: Request, fp: string, e: Expected, now: int, grace: nat)
    requires DeadlinesFit(s, grace)
    ensures DeadlinesFit(IssueSpec(s, token, q, fp, now, grace).0, grace)
    ensures IssueSpec(s, token, q, fp, now, grace).1.Ok? ==>
      var entry := IssueSpec(s, token, q, fp, now, grace).0[Sha256(token)];
      entry.deadline == entry.record.expiresAt + grace
    ensures DeadlinesFit(ConsumeSpec(s, token, e, now).0, grace)
    ensures DeadlinesFit(CleanupSpec(s, now), grace)
    ensures forall d <- s ::
      && DeadlinesFit(s[d := Marked(s[d], now, grace)], grace)
      && var late := s[d].record.expiresAt + grace <= now;
         Marked(s[d], now, grace).deadline == if late then now + 1 else s[d].record.expiresAt + grace
  {
  }

  // ------------------------------------------------------------------ the commands and the store

  class RedisServer {
    var entries: Entries

    constructor ()
      ensures entries == map[]
    {
      entries := map[];
    }

    method GetRecord(d: Digest, now: int) returns (r: Option<Record>)
      ensures r == Get(entries, d, now)
    {
      r := if d in entries && now <= entries[d].deadline then Some(entries[d].record) else None;
    }

    method SetRecord(d: Digest, r: Record, ttlMs: int, onlyIfAbsent: bool, now: int) returns (ok: bool)
      modifies this
      ensures (entries, ok) == Set(old(entries), d, r, ttlMs, onlyIfAbsent, now)
    {
      var present := GetRecord(d, now);
      if onlyIfAbsent && present.Some? {
        return false;
      }
      entries := entries[d := Entry(r, now + ttlMs)];
      ok := true;
    }

    method EvalConsume(d: Digest, e: Expected, at: int, now: int) returns (r: Result<Record, Code>)
      modifies this
      ensures (entries, r) == Eval(old(entries), d, e, at, now)
    {
      var stored := GetRecord(d, now);
      r := LuaConsume(stored, e, at);
      if r.Ok? {
        entries := entries[d := Entry(r.value, entries[d].deadline)];
      }
    }

    method Delete(d: Digest)
      modifies this
      ensures entries == old(entries) - {d}
    {
      entries := entries - {d};
    }
  }

  class RedisTokenStore {
    const client: RedisServer
    const grace: nat
    const fingerprintOf: Digest -> string

    constructor (client: RedisServer, grace: nat, fingerprintOf: Digest -> string)
      ensures this.client == client && this.grace == grace && this.fingerprintOf == fingerprintOf
    {
      this.client := client;
      this.grace := grace;
      this.fingerprintOf := fingerprintOf;
    }

    method IssueToken(token: string, q: Request, now: int) returns (r: Result<Record, Code>)
      modifies client
      ensures (client.entries, r) == IssueSpec(old(client.entries), token, q, fingerprintOf(Sha256(token)), now, grace)
    {
      var refused := CheckRequest(q);
      if refused.Some? {
        return Err(refused.value);
      }
      if !LegalToken(token) {
        return Err(MissingOrMalformedToken);
      }
      if !BindingsFit(q) {
        return Err(InvalidBinding);
      }
      var record := NewRecord(q, fingerprintOf(Sha256(token)), now);
      var ok := client.SetRecord(Sha256(token), record, q.ttlMs.value + grace, true, now);
      r := if ok then Ok(record) else Err(DuplicateToken);
    }

    method GetRecordByToken(token: string, now: int) returns (r: Result<Record, Code>)
      ensures r == Find(client.entries, token, now)
    {
      if !LegalToken(token) {
        return Err(MissingOrMalformedToken);
      }
      var record := client.GetRecord(Sha256(token), now);
      r := if record.Some? then Ok(record.value) else Err(UnknownToken);
    }

    method ValidateToken(token: string, e: Expected, now: int) returns (r: Result<Record, Code>)
      ensures r == ValidateSpec(client.entries, token, e, now)
    {
      r := GetRecordByToken(token, now);
      if r.Ok? {
        var refused := CheckRecord(r.value, e, now);
        if refused.Some? {
          r := Err(refused.value);
        }
      }
    }

    method ConsumeToken(token: string, e: Expected, now: int) returns (r: Result<Record, Code>)
      modifies client
      ensures (client.entries, r) == ConsumeSpec(old(client.entries), token, e, now)
    {
      if !LegalToken(token) {
        return Err(MissingOrMalformedToken);
      }
      r := client.EvalConsume(Sha256(token), e, now, now);
    }

    /** The scan over all keys; which of several equal fingerprints it meets first is left open. */
    method FindKeyByFingerprint(fp: string, now: int) returns (found: Option<Digest>)
      ensures found.Some? ==>
        Get(client.entries, found.value, now).Some? && client.entries[found.value].record.fingerprint == fp
      ensures found.None? ==>
        forall d <- client.entries :: !(Get(client.entries, d, now).Some? && client.entries[d].record.fingerprint == fp)
    {
      var rest := client.entries.Keys;
      while rest != {}
        invariant rest <= client.entries.Keys
        invariant forall d <- client.entries | d !in rest ::
          !(Get(client.entries, d, now).Some? && client.entries[d].record.fingerprint == fp)
        decreases rest
      {
        var d :| d in rest;
        var record := client.GetRecord(d, now);
        if record.Some? && record.value.fingerprint == fp {
          return Some(d);
        }
        rest := rest - {d};
      }
      found := None;
    }

    method RevokeToken(target: string, now: int) returns (ok: bool)
      modifies client
      ensures ok == RevocableKey(old(client.entries), target, now).Some?
      ensures !ok ==> client.entries == old(client.entries)
      ensures ok && !HasPrefix(target, FINGERPRINT_PREFIX) ==>
        client.entries == RevokeSpec(old(client.entries), target, now, grace)
      ensures ok && HasPrefix(target, FINGERPRINT_PREFIX) ==>
        exists d <- old(client.entries) ::
          && Get(old(client.entries), d, now).Some? && old(client.entries)[d].record.fingerprint == target
          && client.entries == old(client.entries)[d := Marked(old(client.entries)[d], now, grace)]
    {
      var d: Digest;
      if HasPrefix(target, FINGERPRINT_PREFIX) {
        var found := FindKeyByFingerprint(target, now);
        if found.None? {
          return false;
        }
        d := found.value;
      } else {
        var entry := GetRecordByToken(target, now);
        if entry.Err? {
          return false;
        }
        d := Sha256(target);
      }
      var record := client.GetRecord(d, now);
      var marked := record.value.(revoked := true);
      var _ := client.SetRecord(d, marked, TtlMs(marked, now, grace), false, now);
      ok := true;
    }

    method CleanupExpired(now: int) returns (removed: nat)
      modifies client
      ensures client.entries == CleanupSpec(old(client.entries), now)
      ensures removed == |old(client.entries)| - |client.entries|
    {
      removed := 0;
      ghost var before := client.entries;
      var rest := client.entries.Keys;
      while rest != {}
        invariant rest <= client.entries.Keys <= before.Keys
        invariant forall d <- client.entries :: client.entries[d] == before[d]
        invariant forall d <- before ::
          d in client.entries <==> d in rest || !(now <= before[d].deadline && before[d].record.expiresAt <= now)
        invariant removed == |before| - |client.entries|
        decreases rest
      {
        var d :| d in rest;
        var record := client.GetRecord(d, now);
        if record.Some? && record.value.expiresAt <= now {
          ghost var keys := client.entries.Keys;
          client.Delete(d);
          assert client.entries.Keys == keys - {d};
          removed := removed + 1;
        }
        rest := rest - {d};
      }
      assert client.entries == CleanupSpec(before, now);
    }
  }
}
