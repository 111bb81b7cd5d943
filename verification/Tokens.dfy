/** Token records and the two acceptance checks that guard them: the JavaScript `checkRecord`
    (identical in both stores) and the Lua script that Redis runs for a consume. */
module Tokens {
  import opened Wrappers

  /** SHA-256 is taken to be injective, so a digest is its preimage under a constructor. */
  datatype Digest = Sha256(preimage: string)

  const SCOPE_LAUNCH := "slaif.launch"
  const SCOPE_RELAY := "slaif.relay"
  const SCOPE_JOB_REPORT := "slaif.jobReport"
  const SCOPE_WORKLOAD := "slaif.workload"

  const SCOPES: set<string> := {SCOPE_LAUNCH, SCOPE_RELAY, SCOPE_JOB_REPORT, SCOPE_WORKLOAD}

  datatype Record = Record(
    scope: string,
    sessionId: Option<string>,
    hpc: Option<string>,
    origin: Option<string>,
    createdAt: int,
    expiresAt: int,
    maxUses: int,
    used: int,
    revoked: bool,
    metadata: map<string, string>,
    fingerprint: string)

  /** What a caller may pass as `expected.metadata`. `Falsy` is null, false, 0 or the empty string;
      `Scalar` is any other non-object; a member of `Fields` may be present but undefined. */
  datatype MetadataBinding =
    | Unbound
    | Falsy
    | Scalar
    | Items(items: seq<string>)
    | Fields(fields: map<string, Option<string>>)

  datatype Expected = Expected(
    scope: Option<string>,
    sessionId: Option<string>,
    hpc: Option<string>,
    origin: Option<string>,
    metadata: MetadataBinding)

  const ANYTHING := Expected(None, None, None, None, Unbound)

  datatype Code =
    | MissingOrMalformedToken
    | UnknownToken
    | RevokedToken
    | ExpiredToken
    | TokenUseExceeded
    | WrongScope
    | WrongSessionId
    | WrongHpc
    | WrongOrigin
    | WrongMetadata
    | InvalidMetadataBinding
    | ScriptError
    | InvalidScope
    | InvalidTtl
    | InvalidMaxUses
    | InvalidBinding
    | DuplicateToken
    | WrongJobId
    | InvalidSessionId
    | InvalidHpc
    | InvalidPayloadId
    | InvalidJobId

  /** An undefined expectation binds nothing; a defined one must equal the record's field. */
  predicate Binds<T(==)>(expected: Option<T>, actual: Option<T>) {
    expected.Some? ==> actual == expected
  }

  predicate FieldsMatch(fields: map<string, Option<string>>, metadata: map<string, string>) {
    forall k <- fields :: (if k in metadata then Some(metadata[k]) else None) == fields[k]
  }

  /** `checkRecord`: the code thrown, or None when the record is accepted. */
  function CheckRecord(r: Record, e: Expected, now: int): Option<Code> {
    if r.revoked then Some(RevokedToken)
    else if r.expiresAt <= now then Some(ExpiredToken)
    else if r.used >= r.maxUses then Some(TokenUseExceeded)
    else if !Binds(e.scope, Some(r.scope)) then Some(WrongScope)
    else if !Binds(e.sessionId, r.sessionId) then Some(WrongSessionId)
    else if !Binds(e.hpc, r.hpc) then Some(WrongHpc)
    else if !Binds(e.origin, r.origin) then Some(WrongOrigin)
    else match e.metadata
      case Unbound => None
      case Falsy => Some(InvalidMetadataBinding)
      case Scalar => Some(InvalidMetadataBinding)
      case Items(_) => Some(InvalidMetadataBinding)
      case Fields(fields) => if FieldsMatch(fields, r.metadata) then None else Some(WrongMetadata)
  }

  /** Neither revoked, expired nor used up. */
  predicate Live(r: Record, now: int) {
    !r.revoked && now < r.expiresAt && r.used < r.maxUses
  }

  /** What an expectation asks of a record, member by member. */
  predicate Meets(r: Record, e: Expected) {
    && (e.scope == None || e.scope == Some(r.scope))
    && (e.sessionId == None || e.sessionId == r.sessionId)
    && (e.hpc == None || e.hpc == r.hpc)
    && (e.origin == None || e.origin == r.origin)
    && (e.metadata.Unbound? ||
        (e.metadata.Fields? &&
         forall k <- e.metadata.fields ::
           match e.metadata.fields[k]
           case None => k !in r.metadata
           case Some(v) => k in r.metadata && r.metadata[k] == v))
  }

  /** The check accepts exactly the live records that meet the expectation. A record that is not live is refused
      for being revoked, else for being expired, else for being used up. */
  lemma CheckedExactly(r: Record, e: Expected, now: int)
    ensures CheckRecord(r, e, now).None? <==> Live(r, now) && Meets(r, e)
    ensures CheckRecord(r, e, now) == Some(RevokedToken) <==> r.revoked
    ensures CheckRecord(r, e, now) == Some(ExpiredToken) <==> !r.revoked && r.expiresAt <= now
    ensures CheckRecord(r, e, now) == Some(TokenUseExceeded) <==>
      !r.revoked && now < r.expiresAt && r.maxUses <= r.used
  {
  }

  /** A live record is refused for the first of scope, session, alias, origin and metadata that it does not meet. */
  lemma FirstMismatch(r: Record, e: Expected, now: int)
    requires Live(r, now) && !Meets(r, e)
    ensures var code := CheckRecord(r, e, now).value;
      && (code == WrongScope <==> !Meets(r, ANYTHING.(scope := e.scope)))
      && (code == WrongSessionId <==>
            Meets(r, ANYTHING.(scope := e.scope)) && !Meets(r, ANYTHING.(sessionId := e.sessionId)))
      && (code == WrongHpc <==>
            Meets(r, ANYTHING.(scope := e.scope, sessionId := e.sessionId)) && !Meets(r, ANYTHING.(hpc := e.hpc)))
      && (code == WrongOrigin <==>
            Meets(r, e.(origin := None, metadata := Unbound)) && !Meets(r, ANYTHING.(origin := e.origin)))
      && (code in {WrongMetadata, InvalidMetadataBinding} <==>
            Meets(r, e.(metadata := Unbound)) && !Meets(r, ANYTHING.(metadata := e.metadata)))
      && (code == InvalidMetadataBinding ==> !e.metadata.Fields?)
      && code in {WrongScope, WrongSessionId, WrongHpc, WrongOrigin, WrongMetadata, InvalidMetadataBinding}
  {
  }

  // ------------------------------------------------------------------ the Lua script

  /** How the caller passes an expectation to the script: `expected.x || ''`. */
  function Argument(expected: Option<string>): string {
    match expected
    case None => ""
    case Some(s) => s
  }

  predicate LuaFieldMismatch(argument: string, actual: Option<string>) {
    argument != "" && actual != Some(argument)
  }

  /** JSON.stringify drops undefined members, so the script sees the defined ones only. */
  predicate DefinedFieldsMatch(fields: map<string, Option<string>>, metadata: map<string, string>) {
    forall k <- fields | fields[k].Some? :: k in metadata && metadata[k] == fields[k].value
  }

  /** The metadata part of the script: None accepts. A falsy binding is sent as the empty string and
      skipped; `pairs` over a scalar raises; array indices never name a metadata member. */
  function LuaMetadata(binding: MetadataBinding, metadata: map<string, string>): Option<Code> {
    match binding
    case Unbound => None
    case Falsy => None
    case Scalar => Some(ScriptError)
    case Items(items) => if items == [] then None else Some(WrongMetadata)
    case Fields(fields) => if DefinedFieldsMatch(fields, metadata) then None else Some(WrongMetadata)
  }

  /** CONSUME_SCRIPT on the value stored under the key: the record it writes back, or a code. */
  function LuaConsume(stored: Option<Record>, e: Expected, now: int): Result<Record, Code> {
    if stored.None? then Err(UnknownToken)
    else
      var r := stored.value;
      if r.revoked then Err(RevokedToken)
      else if r.expiresAt <= now then Err(ExpiredToken)
      else if r.used >= r.maxUses then Err(TokenUseExceeded)
      else if LuaFieldMismatch(Argument(e.scope), Some(r.scope)) then Err(WrongScope)
      else if LuaFieldMismatch(Argument(e.sessionId), r.sessionId) then Err(WrongSessionId)
      else if LuaFieldMismatch(Argument(e.hpc), r.hpc) then Err(WrongHpc)
      else if LuaFieldMismatch(Argument(e.origin), r.origin) then Err(WrongOrigin)
      else
        match LuaMetadata(e.metadata, r.metadata)
        case Some(code) => Err(code)
        case None => Ok(r.(used := r.used + 1))
  }

  // ------------------------------------------------------------------ where the two checks agree

  /** No expectation is the empty string, and metadata is absent or an object without undefined members. */
  predicate PlainBindings(e: Expected) {
    && e.scope != Some("") && e.sessionId != Some("") && e.hpc != Some("") && e.origin != Some("")
    && match e.metadata
       case Unbound => true
       case Fields(fields) => forall k <- fields :: fields[k].Some?
       case _ => false
  }

  /** Metadata that no record satisfies on either side. */
  predicate Unsatisfiable(binding: MetadataBinding) {
    binding.Scalar? || (binding.Items? && binding.items != [])
  }

  /** The script and the JavaScript check accept the same records, always. */
  ghost predicate ChecksAgree(e: Expected) {
    forall r: Record, now: int :: LuaConsume(Some(r), e, now).Ok? <==> CheckRecord(r, e, now).None?
  }

  /** On plain expectations the script gives the check's own refusals, and on acceptance the record with one
      more use and nothing else changed. */
  lemma PlainBindingsAgree(r: Record, e: Expected, now: int)
    requires PlainBindings(e)
    ensures LuaConsume(Some(r), e, now) ==
      match CheckRecord(r, e, now)
      case None => Ok(r.(used := r.used + 1))
      case Some(code) => Err(code)
  {
    if e.metadata.Fields? {
      var fields := e.metadata.fields;
      if DefinedFieldsMatch(fields, r.metadata) {
        assert FieldsMatch(fields, r.metadata);
      }
      if FieldsMatch(fields, r.metadata) {
        assert DefinedFieldsMatch(fields, r.metadata);
      }
    }
  }

  /** A live record that the script accepts for `e`, with nothing in the members that `e` leaves unbound. */
  function ScriptWitness(e: Expected): Record {
    var metadata :=
      if e.metadata.Fields?
      then
        (map k | k in e.metadata.fields ::
          if e.metadata.fields[k].Some? then e.metadata.fields[k].value else "")
      else map[];
    var pick := (x: Option<string>) => if x == Some("") then None else x;
    Record(if e.scope.None? || e.scope == Some("") then SCOPE_RELAY else e.scope.value,
           pick(e.sessionId), pick(e.hpc), pick(e.origin), 0, 1, 1, 0, false, metadata, "")
  }

  /** Exactly when the script and the JavaScript check agree on every record. */
  lemma ChecksAgreeExactly(e: Expected)
    ensures ChecksAgree(e) <==> PlainBindings(e) || Unsatisfiable(e.metadata)
  {
    if PlainBindings(e) {
      forall r: Record, now: int ensures LuaConsume(Some(r), e, now).Ok? <==> CheckRecord(r, e, now).None? {
        PlainBindingsAgree(r, e, now);
      }
    } else if !Unsatisfiable(e.metadata) {
      var r := ScriptWitness(e);
      assert LuaConsume(Some(r), e, 0).Ok?;
      assert CheckRecord(r, e, 0).Some?;
    }
  }
}
