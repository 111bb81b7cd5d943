# A verified model of the SLAIF token, relay, policy and metrics code

The model covers the stateful and the textual core of SLAIF Connect: the token stores, the relay and the
client bridge, the signed-policy texts, the rate limiter, the metrics registry and the scan of scheduler
output. `dafny verify dfyconfig.toml` checks all of it.

## What is modelled

**Tokens.** `Tokens` holds the record and the two acceptance checks, the JavaScript `checkRecord` and the
Lua consume script. `TokenRegistry` is the memory store, a class over one map; `RedisStore` is a Redis
server with lazily expiring keys and the store's operations as sequences of its commands. Each method is
proved equal to a function on the map, and the theorems are about those functions.
`TokenHistories` takes serial histories: cleanup calls are unobservable and dead tokens stay dead.
`RedisRefinement` shows that serial histories cannot tell Redis from the memory registry, and that its
hypothesis on bindings is exact: the script reads an empty or undefined expectation as absent where
`checkRecord` compares it. `RedisRace` lets any number of instances with any clocks interleave, with revoke
split at its read and its write and cleanup at its read and its delete. There "stored `used` equals accepted
consumes" can fail (`StaleRevokeRewindsUsed`). It holds for a key throughout a run exactly when the uses of the
key never change between the read and the write of one revoke of it (`CountIsRightExactly`). What holds in every
step of every run is that a record is revoked or its `used` is the number of consumes accepted since its last
issue. From that follow the use limit and the finality of revocation. A cleanup deletes a live record only if its
value was issued again since the cleanup read it, and a run does so. `Workload` adds the check-then-act layer,
with other calls between its two steps: an accepted call holds a full match exactly when its worker names a job,
or the record it spends is bound to none or to the very id given, so a worker that names its job is never fooled.

**Relay.** `Relay` gives one connection object and the shared slot table; a handler run is cut at its two
awaits. `RelayWorld` composes any number of sockets and overlapping runs with the memory registry; `Runs` holds
what the state machines here share. `RelaySlots` first says what every step does to the count of a session and
alias and to the number of sockets holding its slot, and then gives three exact conditions over whole runs.

- Count and holders agree throughout exactly when no step miscounts: grants a slot to a closed socket, grants
  another to a socket that holds one, or lets a closed socket give back a slot that others still hold.
- The count is at least the number of holders throughout exactly when no step underpays: a connect fails on a
  closed socket while every slot counted has another holder. The other two kinds of miscount only overcount, which
  leaks a slot.
- The holders stay within the limit throughout exactly when no step overfills. That takes a count below the number
  of holders, so a run that never underpays keeps the limit whatever messages overlap and whatever closes. In every
  run a live socket that has not been asked to close holds its slot, so the limit then bounds the live sockets too.

Orderly runs, in which no socket closes or sends another auth message while one of its runs is suspended, never
miscount. Two runs of actions show the two kinds: `ClosingRun` underpays and then breaks the limit,
`OverlappingRun` leaks a slot and keeps it. The close handler does not clear `activeKey`, and the model keeps that.
`Bridge` is the client side, and `EndToEnd` joins one bridge and one relay connection by two FIFO channels that may
be cut at any moment: no byte is out of order in any run, and an admitted exchange delivers every byte both ways.
It also says when the target socket is destroyed: a connect that completes after the close
event leaves it open until the target closes it.

**Policy texts.** `JsonText` spells strings (as UTF-16 code units) and integers and reads them back.
The spelling is also given apart from any reader.
`CanonicalJson` prints values with sorted keys and gives a parser for the result. The key comparison is any
total preorder, since `localeCompare` ties some distinct strings: insertion order is invisible for a value
exactly when none of its objects has tied keys. `PolicySigning` applies this to the signing input, whatever
order the stored text has its members in. `PolicyRollback` is the acceptance rule; over any ids, a run rolls
nothing back exactly when no acceptance takes up an id right after another one and behind an earlier acceptance.
`Base64Url` is the coding of signatures (RFC 4648, section 5).

**Indexes.** `RateLimiter` bounds accepted consumes over any interval and shows the bound is attained. Calls of
other scopes and keys change no answer unless they share the bucket; a colon in a scope is what makes that possible.
`MetricRules` holds the tests on label names and values; `MetricKeys` and `Metrics` show that the keyed indexes
agree with a plain log of accepted calls.
`JobOutput` gives the pattern of the scanner declaratively and as an engine matches it, and reads the same
output line by line. The pattern's `\s` crosses line ends, so a line-by-line reading is right in front of
every next line exactly when the line does not break off inside the pattern's white space.

## Model

| member | source | states |
|---|---|---|
| Tokens.PlainBindingsAgree | server/tokens/redis_token_store.js:162-191 | for expectations that are neither empty nor undefined, the script gives `checkRecord`'s own refusals, and on acceptance the record with one more use and nothing else changed |
| Tokens.ChecksAgreeExactly | server/tokens/redis_token_store.js:29-57 | the expectations on which script and `checkRecord` agree for every record and time are exactly the plain ones and those no record meets |
| Tokens.CheckedExactly | server/tokens/token_registry.js:111-140 | a record is accepted exactly when it is live and has each scope, session, alias, origin and metadata member the caller names; which records are refused as revoked, expired and used up |
| Tokens.FirstMismatch | server/tokens/token_registry.js:122-139 | a live record is refused for the first member it does not have, in the order scope, session, alias, origin, metadata |
| TokenRegistry.IssuedExactly | server/tokens/token_registry.js:143-195 | an issue is granted exactly for a known scope, a positive time to live, 1 to 1000 uses, bindings of at most 512 characters and a new value; the record carries what was asked for |
| TokenRegistry.GrantedExactly | server/tokens/token_registry.js:197-257 | validate and consume grant exactly the live records of legal values that have what the caller names; a consume adds one use and changes nothing else |
| TokenRegistry.TokenRegistry.IssueToken | server/tokens/token_registry.js:143-195 | a refused issue names its first failing test and stores nothing; an accepted one adds one fresh unused record and touches no other |
| TokenRegistry.TokenRegistry.ValidateToken | server/tokens/token_registry.js:197-225 | accepts exactly by length, presence and `checkRecord`, with no change of state |
| TokenRegistry.TokenRegistry.ConsumeToken | server/tokens/token_registry.js:227-257 | spends one use of one record on acceptance and changes nothing on refusal |
| TokenRegistry.TokenRegistry.RevokeToken | server/tokens/token_registry.js:259-291 | marks the record of the value, or else one record with that fingerprint, or nothing |
| TokenRegistry.TokenRegistry.CleanupExpired | server/tokens/token_registry.js:293-303 | keeps exactly the unexpired records and returns how many it removed |
| TokenRegistry.RevokeIsAllowed | server/tokens/token_registry.js:277-289 | the revoke used in histories is one of those the method may perform |
| TokenHistories.SweepsStep | server/tokens/token_registry.js:111-121 | one call on a registry with some expired records swept out decides as on the full one and keeps them related |
| TokenHistories.IssuedUsesAreGranted | server/tokens/token_registry.js:143-257 | an issue and any number of consumes that fit it: the first `maxUses` are granted, numbered in order, and all others refused |
| TokenHistories.CleanupIsTransparent | server/tokens/token_registry.js:293-303 | two histories that differ only in cleanup calls grant the same records call by call |
| TokenHistories.DeadTokensStayDead | server/tokens/token_registry.js:111-121 | once refused as revoked, expired or used up, a token is refused after any calls that do not issue it again, and consuming it changes nothing |
| TokenHistories.RevokedTokensStayRefused | server/tokens/token_registry.js:259-291 | a revoke of a held token, by value or by its own fingerprint, succeeds and is final until the value is issued again |
| TokenHistories.RevokesAlikeExactly | server/tokens/token_registry.js:277-289 | what a revoke by fingerprint leaves of the unexpired records is the same after any cleanups and in any scan order exactly when no unrevoked unexpired record shares that fingerprint with another |
| TokenHistories.SharedFingerprintTellsCleanup | server/tokens/token_registry.js:277-303 | two issues with one fingerprint and a revoke, as calls: the second token may stay live, and with a cleanup before the revoke it never does |
| RedisStore.RedisServer.SetRecord | server/tokens/redis_token_store.js:337-340 | SET with PX, and with NX only onto a key the server no longer returns |
| RedisStore.RedisServer.EvalConsume | server/tokens/redis_token_store.js:17-61 | the script as one atomic step that keeps the key's deadline |
| RedisStore.GrantedExactly | server/tokens/redis_token_store.js:360-435 | validate grants exactly the returned live records that have what the caller names; a consume by plain bindings grants the same, adds one use and keeps the deadline |
| RedisStore.CleanedExactly | server/tokens/redis_token_store.js:470-485 | of the returned records a cleanup leaves exactly the unexpired ones |
| RedisStore.DeadlinesKept | server/tokens/redis_token_store.js:277-280 | every operation keeps each entry at least the grace period beyond its record's expiry; issue and revoke set it to just that, or to 1 ms when it has passed |
| RedisStore.RedisTokenStore.IssueToken | server/tokens/redis_token_store.js:299-358 | the first failing test, or one new entry whose deadline is expiry plus grace |
| RedisStore.RedisTokenStore.GetRecordByToken | server/tokens/redis_token_store.js:267-275 | the returned record, unknown, or malformed |
| RedisStore.RedisTokenStore.ValidateToken | server/tokens/redis_token_store.js:360-388 | accepts exactly by lookup and `checkRecord` |
| RedisStore.RedisTokenStore.ConsumeToken | server/tokens/redis_token_store.js:390-435 | legal length, then the script's verdict and write |
| RedisStore.RedisTokenStore.FindKeyByFingerprint | server/tokens/redis_token_store.js:282-294 | a returned record with that fingerprint, or proof that there is none |
| RedisStore.RedisTokenStore.RevokeToken | server/tokens/redis_token_store.js:437-468 | marks the found record and restarts its time to live, or changes nothing and returns false |
| RedisStore.RedisTokenStore.CleanupExpired | server/tokens/redis_token_store.js:470-485 | deletes exactly the returned entries whose record has expired and counts them |
| RedisRefinement.RefinesStep | server/tokens/redis_token_store.js:299-485 | one call on both stores keeps them related, lazily expired keys included, and gives equal verdicts |
| RedisRefinement.RedisRefinesMemory | server/tokens/redis_token_store.js:360-435 | over every serial history with one clock and no re-issue, both stores grant the same issues, validates and consumes with equal records |
| RedisRefinement.IncomparableBindingsDiffer | server/tokens/redis_token_store.js:38-57 | for every other binding some live record is granted by Redis and refused by the registry |
| UseLog.UsesSinceIssue | server/tokens/redis_token_store.js:58-60 | the count carried by the invariants is the number of consumes accepted since the last issue |
| UseLog.CallAccounts | server/tokens/token_registry.js:227-231 | every registry call accounts for its uses: one for an accepted consume, a fresh budget for an issue, none otherwise |
| RedisRace.StepKeepsInvariant | server/tokens/redis_token_store.js:437-485 | every atomic step, stale revoke writes and deletes included, keeps "revoked, or used equals consumes since issue" |
| RedisRace.NoIssueIsOverspent | server/tokens/redis_token_store.js:17-61 | in every interleaving the consumes accepted for one issue never exceed its `maxUses` |
| RedisRace.RevocationIsFinal | server/tokens/redis_token_store.js:458-459 | after a revoke's write a consume of the key is accepted only after a new issue of it |
| RedisRace.CountStep | server/tokens/redis_token_store.js:277-280 | a right stored count stays right over a step exactly when the step is not the write of a revoke that the uses have moved on from |
| RedisRace.CountIsRightExactly | server/tokens/redis_token_store.js:437-459 | over every run, stored `used` equals accepted consumes throughout exactly when no revoke has the uses of its key change between its read and its write |
| RedisRace.StaleRevokeRewindsUsed | server/tokens/redis_token_store.js:277-280 | for every key and request, a run after which the stored `used` is 0 and the accepted consumes are 1 |
| RedisRace.CleanupDeletesTheDead | server/tokens/redis_token_store.js:474-481 | in every interleaving, a record about to be deleted is live by the clock of the read only if its value was issued again between the two commands |
| RedisRace.StaleCleanupDeletesTheLiving | server/tokens/redis_token_store.js:477-480 | such a reissue exists for every key and request: the late delete removes a live record |
| Workload.ValidateWorkloadToken | server/workloads/workload_token.js:86-91 | the binding's verdict, then the job binding |
| Workload.ConsumeWorkloadToken | server/workloads/workload_token.js:93-100 | the two steps run back to back |
| Workload.BindingCheck | server/workloads/workload_token.js:33-50 | what one registry check of a workload binding decides; a job id bound by the record only is not among it |
| Workload.AcceptsExactlyLiveMatches | server/workloads/workload_token.js:93-100 | run alone, accepts exactly live records equal in scope, session, lower-cased alias, payload and job; spends one use or changes nothing |
| Workload.WorkersAcceptedExactly | server/workloads/workload_token.js:6-50 | which workers the binding accepts: known payload, no job id or 1 to 32 digits, a session id and an alias |
| Workload.SessionIdsExactly | server/workloads/workload_token.js:6-11 | a session id is `sess_` and 8 to 128 word characters |
| Workload.IssuedTokenAdmitsItsWorker | server/workloads/workload_token.js:59-84 | a token issued with any further metadata admits a worker exactly when session, alias and payload agree and it names the job the token is bound to |
| Workload.PendingStep | server/workloads/workload_token.js:94-98 | whatever runs between the two steps, a pending call's token still matches unless it was issued again |
| Workload.IssueIsWonWithinBudget | server/workloads/workload_token.js:93-100 | however calls interleave, one issue grants at most `maxUses` consumes |
| Workload.FinishedCallsMatch | server/workloads/workload_token.js:93-100 | in every run, an accepted second step holds a full match exactly when the worker names a job, or the record is bound to none or to the very id given, and always unless the token was issued again meanwhile; a refused one spends nothing |
| Workload.FinishesExactly | server/workloads/workload_token.js:93-100 | in every run, the second step is accepted exactly when the record is then live and agrees with the worker, the job if it names one included |
| Workload.UndisturbedCallRunsAlone | server/workloads/workload_token.js:93-100 | two steps with nothing between them are the call run alone |
| Workload.NamedJobsAreKept | server/workloads/workload_token.js:94-99 | a worker that names its job is never admitted to another, whatever runs between the steps |
| Workload.ReissuedTokenEscapesItsJob | server/workloads/workload_token.js:94-99 | every worker that names no job can be admitted to any job, by the run issue, preflight, expiry, cleanup, issue, consume |
| Aliases.LowerIsStable | server/relay/relay.js:34-40 | normalising an alias twice is normalising it once, and gives an alias |
| Aliases.LowerFoldsCase | server/relay/relay.js:38-40 | two texts have one lower-case form exactly when they differ in the case of ASCII letters only |
| Aliases.NormalizedExactly | server/relay/relay.js:34-40 | exactly the texts of 1 to 64 ASCII letters, digits, underscores and hyphens are normalised |
| Relay.RelayServer.IncrementActive | server/relay/relay.js:229-240 | takes one slot below the limit, or refuses and changes nothing |
| Relay.RelayServer.DecrementActive | server/relay/relay.js:242-252 | gives one slot back and drops a count that would reach zero |
| Relay.RelayConnection.SafeClose | server/relay/relay.js:42-48 | only the first close of an open socket has an effect |
| Relay.RelayConnection.Resolve | server/relay/relay.js:63-93 | consumes the token at once and names the session of the consumed record |
| Relay.ResolvesExactly | server/relay/relay.js:63-93 | a token is consumed exactly when its record is live, of scope `slaif.relay`, and of the configured session, alias and origin wherever those are given |
| Relay.SessionIsTheRecords | server/relay/relay.js:82-93 | the session's alias is the first non-empty one of the record's own and two metadata members, lower-cased; the rest is the record's |
| Relay.TargetFoundExactly | server/relay/relay.js:142-159 | a target is found exactly when the session's alias has a usable entry, and is that entry |
| Relay.ConnectsExactly | server/relay/relay.js:421-505 | a resolved run starts a connect exactly when its session has not expired, its alias is usable and a slot is free; otherwise the socket closes for that reason |
| Relay.FramesHandledExactly | server/relay/relay.js:328-420 | before authentication only an auth message starts a run, after it only a binary frame on a standing connection is written; every other frame closes the socket for its own reason |
| Relay.RelayConnection.OnMessage | server/relay/relay.js:328-420 | the handler up to its first await: each refusal in order, or a consumed token; after authentication, bytes forwarded or a close |
| Relay.RelayConnection.AfterToken | server/relay/relay.js:421-505 | the handler between its awaits: each refusal in order, or session, target and slot set and a connect started |
| Relay.RelayConnection.AfterConnect | server/relay/relay.js:504-548 | failure gives the slot back, success makes the connection live |
| Relay.RelayConnection.OnWsClose | server/relay/relay.js:597-607 | gives the held slot back once and leaves `activeKey` as it is |
| RelayWorld.ConnectsWithinMaxUses | server/relay/relay.js:71-92 | over all runs, connects started with a token number at most the uses it was issued with |
| RelayWorld.ConnectsOfOneIssue | server/relay/relay.js:416-505 | a token issued once starts at most `maxUses` connects |
| RelayWorld.RunsConnectOnce | server/relay/relay.js:504-505 | a handler run starts at most one connect |
| RelayWorld.ConnectsOfEachIssue | server/relay/relay.js:416-505 | the runs that consumed a token after one issue and before the next start at most that issue's `maxUses` connects |
| RelayWorld.ConnectsFollowTheirToken | server/relay/relay.js:460-505 | every connect goes to the allowlist entry of the alias in the record that the same run consumed before it, a relay record of the configured session, alias and origin |
| RelayWorld.RunsConsumeOnce | server/relay/relay.js:416-420 | a handler run consumes at most one token |
| RelayWorld.ConsumesExactly | server/relay/relay.js:71-92 | in any state a message consumes a token exactly when its record is live and fits the relay; it spends one use and its run carries that record's session |
| RelayWorld.ConsumedTokensFit | server/relay/relay.js:71-80 | over all runs, every consumed record has scope `slaif.relay` and the configured session, alias and origin |
| RelaySlots.CountsStayInRange | server/relay/relay.js:229-252 | in every run each stored count is between 1 and the limit |
| RelaySlots.BalancedStep | server/relay/relay.js:480-508 | a right count stays right over a step exactly when the step does not miscount, for every key and state |
| RelaySlots.BalancedExactly | server/relay/relay.js:480-607 | over every run, the count of a key is the number of sockets holding it throughout exactly when no step miscounts it |
| RelaySlots.StepDrifts | server/relay/relay.js:229-252 | what every step, in any state, does to the count of a key and to the number of sockets holding it |
| RelaySlots.CoveredStep | server/relay/relay.js:504-508 | a count that covers its holders still does after a step exactly when the step does not underpay |
| RelaySlots.CoveredExactly | server/relay/relay.js:480-607 | over every run, the count of a key covers its holders throughout exactly when no step underpays it |
| RelaySlots.LimitExactly | server/relay/relay.js:229-240 | over every run, the holders of a key stay within the limit throughout exactly when no step grants the slot to an open socket while the limit is reached |
| RelaySlots.HoldersWithinLimit | server/relay/relay.js:229-240 | a run that never underpays a key keeps its holders within the limit, whatever messages overlap and whatever closes |
| RelaySlots.RunsAreHonest | server/relay/relay.js:416-548 | in every run, however auth messages overlap, an open socket that is authenticated or being connected holds the slot of the session it was last given |
| RelaySlots.OpenLiveWithinLimit | server/relay/relay.js:416-548 | in every run the live sockets not asked to close hold their slot, and in a run that never underpays they stay within the limit |
| RelaySlots.OrderlyRunsAreAccounted | server/relay/relay.js:480-524 | no step of an orderly run miscounts, so every count is the number of sockets holding its key |
| RelaySlots.LiveSocketsWithinLimit | server/relay/relay.js:480-543 | in orderly runs the live authenticated sockets of a session and alias stay within the limit |
| RelaySlots.ClosingRunUnderpaysOnce | server/relay/relay.js:506-508 | in the run of the next row the failing connect of the closed socket underpays |
| RelaySlots.CloseDuringConnectBreaksLimit | server/relay/relay.js:597-607 | a run of the relay with one issued token after which, at limit 1, exactly two sockets of one session and alias are live and open |
| RelaySlots.OverlappingAuthLeaksSlot | server/relay/relay.js:480-508 | a run of the relay after which one slot is taken and no socket holds it |
| RelaySlots.OverlappingRunNeverUnderpays | server/relay/relay.js:480-508 | that run never underpays and never leaves the limit |
| RelaySlots.SlotKeysAreInjective | server/relay/relay.js:233-233 | session and alias are recovered from the slot key |
| Bridge.BridgeConnection.Close | tools/ws-tcp-bridge.js:48-56 | closes both sides once |
| Bridge.BridgeConnection.OnMessage | tools/ws-tcp-bridge.js:66-103 | the first acceptance flushes the kept chunks in order and once; later bytes go to the client; anything else closes |
| Bridge.ReplyClosesExactly | tools/ws-tcp-bridge.js:66-103 | a reply closes an open bridge exactly when it is no "ok" before acceptance or no payload after it; otherwise the sockets stay, and all kept chunks are sent or the bytes written |
| Bridge.BridgeConnection.OnData | tools/ws-tcp-bridge.js:105-115 | keeps the chunk before acceptance, sends it after |
| EndToEnd.HandshakeStep | tools/ws-tcp-bridge.js:58-93 | every step keeps: one authentication, data up only once the relay has a target, data down only from then on |
| EndToEnd.UpFlowStep | tools/ws-tcp-bridge.js:86-115 | every step keeps the upward bytes written, in flight and kept in line with those read, the drop of a closing WebSocket included |
| EndToEnd.DownFlowStep | server/relay/relay.js:526-533 | every step keeps the downward bytes written and in flight in line with those read |
| EndToEnd.BytesArriveInOrder | server/relay/relay.js:571-585 | at all times the bytes written to the target are a prefix of those read from the client, and the reverse |
| EndToEnd.NothingIsLostWhileOpen | tools/ws-tcp-bridge.js:86-115 | while nothing has closed or been cut, every byte read is written, in flight or kept, exactly once |
| EndToEnd.AdmitsExactly | server/relay/relay.js:416-505 | a fresh connection is admitted exactly when the token's record is live and fits the relay, its alias has a usable entry and a slot is free |
| EndToEnd.DeliversUp | tools/ws-tcp-bridge.js:86-115 | on a connected pair, delivering what is in flight upward writes all bytes read from the client and keeps both sides open |
| EndToEnd.DeliversDown | server/relay/relay.js:526-533 | the same downward |
| EndToEnd.ExchangeCompletes | tools/ws-tcp-bridge.js:58-115 | for every admitted token, all chunks read before acceptance and all chunks answered: the run from opening to the last delivery writes every byte on both sides, and both stay open |
| EndToEnd.OneTargetSocket | server/relay/relay.js:504-543 | the target socket of a bridged connection is never replaced |
| EndToEnd.TargetDestroyedExactly | server/relay/relay.js:597-607 | at all times the target socket has been destroyed exactly when the relay connection closed after having had it, or the target closed it |
| EndToEnd.LateConnectStaysOpen | server/relay/relay.js:504-543 | a run in which the connect completes after the close event and the target socket stays open |
| JsonText.QuoteRoundTrip | extension/js/slaif_policy_signature.js:23-23 | reading a quoted string returns it, escapes and lone surrogates included, whatever follows |
| JsonText.QuoteSpells | extension/js/slaif_policy_signature.js:23-23 | the text of a string unit by unit: two-unit forms for quote, backslash and units 8, 9, 10, 12, 13, four hex digits for the other control units and lone surrogates, itself for all others |
| JsonText.Hex4IsTheUnit | extension/js/slaif_policy_signature.js:23-23 | the four hex digits are lower-case and have the unit as their value |
| JsonText.PlainIsVerbatim | extension/js/slaif_policy_signature.js:23-23 | text without quote, backslash, control units and lone surrogates is quoted as it is, a slash included |
| JsonText.EscapeIsClean | extension/js/slaif_policy_signature.js:23-23 | the quoted text holds no control character and no lone surrogate |
| JsonText.IntRoundTrip | extension/js/slaif_policy_signature.js:23-23 | reading a printed integer returns it when no digit follows |
| JsonText.PrintedExactly | extension/js/slaif_policy_signature.js:23-23 | the text of an integer is its one decimal spelling without leading zeros |
| KeySort.SortSorts | extension/js/slaif_policy_signature.js:29-31 | the entries come out in key order |
| KeySort.SortedKeysAgree | extension/js/slaif_policy_signature.js:29-31 | two sorted lists of the same keys list them alike when no keys tie |
| CanonicalJson.CanonicalPrintsExactly | extension/js/slaif_policy_signature.js:17-36 | printing succeeds exactly on values without non-finite numbers, functions, or undefined outside members |
| CanonicalJson.TextOfValue | extension/js/slaif_policy_signature.js:18-23 | the texts of null, booleans, integers and strings |
| CanonicalJson.TextOfArray | extension/js/slaif_policy_signature.js:25-27 | an array's text is the texts of its items joined by commas, in brackets |
| CanonicalJson.TextOfObject | extension/js/slaif_policy_signature.js:28-34 | an object's text is its defined members in key order, key and value joined by colons, members by commas, in braces |
| CanonicalJson.ParseInvertsCanonical | extension/js/slaif_policy_signature.js:17-36 | the parser returns the value with keys sorted and undefined members dropped |
| CanonicalJson.CanonicalOfNormal | extension/js/slaif_policy_signature.js:28-33 | the text depends on the value only through that normal form |
| CanonicalJson.EqualTextMeansEquivalent | extension/js/slaif_policy_signature.js:17-36 | values that print equally are equal up to key order and undefined members, under any comparison |
| CanonicalJson.CanonicalDeterminesValue | extension/js/slaif_policy_signature.js:17-36 | printable values print equally exactly when equal up to key order and undefined members, when no keys of one object tie |
| CanonicalJson.TiesShow | extension/js/slaif_policy_signature.js:31-31 | a value with tied keys at any depth has a reordering with another normal form |
| CanonicalJson.CanonicalIgnoresOrderExactly | extension/js/slaif_policy_signature.js:28-33 | all reorderings of a value print alike exactly when no object in it has tied keys |
| PolicySigning.AttachIsInvisible | extension/js/slaif_policy_signature.js:38-44 | dropping the signature undoes attaching any signature |
| PolicySigning.SigningInputIsStable | extension/js/slaif_policy_signature.js:46-48 | the signing input is the same before signing, after any signature, and after any reordering at any depth |
| PolicySigning.SigningInputExactly | extension/js/slaif_policy_signature.js:38-48 | there is a signing input exactly for an object whose members but the signature print, and it reads back as that object without the signature |
| PolicySigning.WritesAsInserted | extension/js/slaif_policy_signature.js:17-36 | under the comparison that ties all keys the printer keeps insertion order |
| PolicySigning.SigningInputSurvivesStorage | extension/js/slaif_policy_signature.js:46-48 | writing a signed envelope with its members in any order and parsing it gives the signing input of the unsigned one |
| PolicySigning.SigningInputBindsEnvelope | extension/js/slaif_policy_signature.js:38-48 | equal signing inputs mean equal envelopes but for the signature |
| PolicyRollback.NoRollback | extension/js/slaif_policy_signature.js:185-197 | over any serial run on one policy id, accepted numbers never decrease and each has one fingerprint |
| PolicyRollback.AcceptedFollow | extension/js/session.js:157-170 | every later acceptance follows the stored policy and every earlier acceptance |
| PolicyRollback.RunsAreRollbackFreeExactly | extension/js/slaif_policy_signature.js:185-197 | over any ids and from any stored policy, acceptances of one id never go back exactly when no acceptance relapses: takes up an id right after another, behind an earlier acceptance of it |
| PolicyRollback.ProtectsExactly | extension/js/slaif_policy_signature.js:186-196 | everything the check now admits under an id follows a policy of it exactly when the stored policy has that id and follows it too |
| PolicyRollback.AdmitsExactly | extension/js/slaif_policy_signature.js:185-197 | on the stored id a policy is admitted exactly when it follows the stored one, another id and an empty store admit all, and which refusal is given when |
| PolicyRollback.NextOfferExactly | extension/js/session.js:157-170 | after any offers of any ids, one more is accepted exactly when it follows the last accepted one or has another id |
| PolicyRollback.AllAcceptedExactly | extension/js/slaif_policy_signature.js:185-197 | all offers of a run are accepted exactly when each of the same id as the one before it follows that one |
| PolicyRollback.OtherIdForgets | extension/js/slaif_policy_signature.js:186-188 | relapses exist: one acceptance under another id readmits any older policy |
| Base64Url.EncodeIsLetters | extension/js/slaif_policy_signature.js:50-56 | encoding strips exactly the padding and leaves URL-safe letters |
| Base64Url.SameBits | extension/js/slaif_policy_signature.js:50-56 | every 24-bit group of octets has the value of its four sextets, filled with zero bits at the end |
| Base64Url.EncodeSpells | extension/js/slaif_policy_signature.js:50-56 | each sextet is written as its letter of the URL-safe alphabet |
| Base64Url.PaddingIsRecomputed | extension/js/slaif_policy_signature.js:62-63 | padding computed from the length alone is the padding that encoding removed |
| Base64Url.DecodeIsUnpack | extension/js/slaif_policy_signature.js:58-68 | decoding fails exactly on foreign characters or one sextet left over |
| Base64Url.DecodeInvertsEncode | extension/js/slaif_policy_signature.js:50-68 | decoding an encoding returns the octets; the text has length ceil(4n/3) and no `+`, `/` or `=` |
| Base64Url.EncodeInvertsDecodeExactly | extension/js/slaif_policy_signature.js:58-68 | a text is the encoding of what it decodes to exactly when its fill bits are zero |
| RateLimiter.CreateMemoryRateLimiter | server/rate_limit/rate_limiter.js:27-40 | made exactly for integer windows of at least 100 ms and integer limits of at least 1 |
| RateLimiter.MemoryRateLimiter.CurrentBucket | server/rate_limit/rate_limiter.js:42-52 | the live bucket, or a fresh one that starts now |
| RateLimiter.MemoryRateLimiter.CheckLimit | server/rate_limit/rate_limiter.js:56-63 | reports the live bucket and counts nothing |
| RateLimiter.MemoryRateLimiter.Consume | server/rate_limit/rate_limiter.js:64-89 | counts one below the limit, refuses at it, and touches no other bucket |
| RateLimiter.KeyedExactly | server/rate_limit/rate_limiter.js:17-25 | keys of 1 to 512 and scopes of 1 to 128 characters are legal, the key is tested first, and an absent scope is `default` |
| RateLimiter.SharedExactly | server/rate_limit/rate_limiter.js:17-25 | legal calls share a bucket exactly when scope and key agree, or one scope is the other with a colon and a text that, with a colon, starts the other key |
| RateLimiter.PlainScopesShareExactly | server/rate_limit/rate_limiter.js:17-25 | when neither scope has a colon, exactly when scope and key agree |
| RateLimiter.OtherCallsDoNotMatter | server/rate_limit/rate_limiter.js:42-89 | histories that differ only in checks and consumes of other scopes and keys that share no bucket give the same answers |
| RateLimiter.PlainScopesAreUnshared | server/rate_limit/rate_limiter.js:17-25 | in a history whose scopes have no colon no other scope or key shares the bucket |
| RateLimiter.ConsumeShowsExactly | server/rate_limit/rate_limiter.js:64-89 | a consume changes what a check reports exactly when both share the bucket |
| RateLimiter.CheckPredictsConsume | server/rate_limit/rate_limiter.js:56-89 | a check changes nothing for the consume after it and tells its answer |
| RateLimiter.IntervalBound | server/rate_limit/rate_limiter.js:42-89 | in any half-open interval of k windows at most (k+1) times `max` consumes of one bucket are accepted |
| RateLimiter.BoundIsAttained | server/rate_limit/rate_limiter.js:42-89 | (k+1) times `max` are accepted within k windows, for every k of at least 1, window and limit |
| MetricRules.KeyBlocksArePrivateKeys | server/metrics/metrics_registry.js:25-26 | the last alternative of the value pattern refuses nothing that `private.?key` does not |
| MetricRules.TokensAreNeverLabels | server/metrics/metrics_registry.js:82-86 | a value with a generated token in it, in any casing, is refused |
| MetricRules.OtherNamesPass | server/metrics/metrics_registry.js:77-81 | a well-formed label name whose first letter starts no forbidden name is allowed |
| MetricRules.OtherValuesPass | server/metrics/metrics_registry.js:82-86 | a value without the letters k, p, b and h is allowed |
| MetricKeys.MetricNamesExactly | server/metrics/metrics_registry.js:69-73 | which ASCII names are metric names |
| MetricKeys.CheckedNames | server/metrics/metrics_registry.js:77-86 | labels pass exactly when every name and value is allowed and no value is longer than 128 |
| MetricKeys.FirstRefused | server/metrics/metrics_registry.js:77-86 | labels are refused for the first entry that is not allowed, its name before its value |
| MetricKeys.EffectiveLabels | server/metrics/metrics_registry.js:89-92 | the environment is added exactly when set and not given, and the result is a label set |
| MetricKeys.KeysAreExact | server/metrics/metrics_registry.js:95-113 | samples share a key exactly when they share name and label set, in any insertion order |
| Metrics.MetricsRegistry.SanitizeLabels | server/metrics/metrics_registry.js:75-93 | the first refused label, or the effective labels |
| Metrics.MetricsRegistry.Increment | server/metrics/metrics_registry.js:126-135 | a refused call changes nothing; an accepted one is logged and adds its amount to its own sample |
| Metrics.MetricsRegistry.SetGauge | server/metrics/metrics_registry.js:136-145 | the same with the amount replacing the value |
| Metrics.MetricsRegistry.ObserveHistogram | server/metrics/metrics_registry.js:146-157 | the same with count and sum raised |
| Metrics.RefusedExactly | server/metrics/metrics_registry.js:126-157 | counters and histograms refuse negative amounts, all kinds infinite ones; a call with allowed labels, such an amount and a metric name is accepted, and which refusal comes first |
| Metrics.CallKeepsAgreement | server/metrics/metrics_registry.js:111-118 | an accepted call keeps all three indexes in agreement with the log |
| Metrics.IndexAgreesWithLog | server/metrics/metrics_registry.js:111-156 | there is a sample exactly when the log has a call with that name and label set, and it holds their sum, count or last amount |
| JobOutput.MatchIsThePattern | extension/js/job_output_parser.js:20-20 | the greedy match is found exactly when the pattern has one, with its id and longest extent |
| JobOutput.ScanFindsAll | extension/js/job_output_parser.js:20-20 | going on after each match loses no id of any matching line start |
| JobOutput.VerdictBySet | extension/js/job_output_parser.js:14-35 | the verdict is decided by the blankness and the set of ids of the part that is read |
| JobOutput.OnlyTheEndCounts | extension/js/job_output_parser.js:3-12 | the verdict is that of the last `maxBytes` characters, whatever comes before them |
| JobOutput.SubmissionIsRead | extension/js/job_output_parser.js:14-35 | the line of a submission gives its id, whatever the digits |
| JobOutput.LineWiseReadingExactly | extension/js/job_output_parser.js:20-20 | reading a line alone is right in front of every next line exactly when it does not break off inside the pattern's spaces |
| JobOutput.VerdictLineByLine | extension/js/job_output_parser.js:14-35 | on output of any length whose last `maxBytes` characters are such lines: one id exactly when all submission lines carry it, ambiguous when two differ, none when there are none |
| JobOutput.ReportedIdIsNumeric | extension/js/job_output_parser.js:50-53 | a reported id passes the check made when it is sent on |

## Left out

- SHA-256, random tokens and ECDSA: digests are injective by construction, issued values are arguments, signatures are opaque values.
- Fingerprints are a truncated digest, so they may collide: serial histories assume distinct fingerprints among issued tokens (`SharedFingerprintTellsCleanup` shows why), and the methods leave open which of several equal ones a scan meets first.
- Which metadata key a `wrong_...` code names: all such codes are one `WrongMetadata`.
- Tokens, targets, bindings and rate limit keys that are not strings, and metadata members that are not strings; they are refused by type tests or compare unequal.
- Corrupt stored records, connection errors and health checks of the Redis store.
- Audit events, and the metrics that stores and relay emit: side output that changes no outcome.
- Relay token resolution by a custom resolver, by the development map or by the demo format, and registry use in validate mode.
- The relay over the Redis store: `resolveRelayToken` does not await a consume, so only the memory registry fits it.
- Timers as durations: timeouts are shutdowns and closes that may come at any moment; idle and byte counters have no effect.
- An alias that names a member of `Object.prototype` in the allowlist, and a label named `__proto__`.
- WebSocket framing, TCP back pressure, pausing and the set of active bridge connections.
- RedisRace.StepKeepsInvariant: keys expire at any moment rather than at their deadline, which allows more runs than Redis does; the script's two commands are one step, as Redis runs them.
- Workload.ConsumeWorkloadToken: over the memory store only.
- `localeCompare` is any total preorder on strings; its collation is not modelled, and metric label names are assumed untied.
- CanonicalJson.ParseInvertsCanonical: numbers are integers in plain decimal notation; fractions, negative zero and exponent notation are not modelled.
- The UTF-8 bytes of a signing input, envelope validation, trust roots and key import.
- Base64Url.DecodeIsUnpack: the branch through `atob`; the fallback through `Buffer`, for hosts without `atob`, is not modelled.
- PolicyRollback.NoRollback: sequence numbers are integers and runs are serial; two acceptances racing for the browser storage are not modelled.
- RateLimiter.IntervalBound: integer clock; the disabled and external limiter modes are not modelled.
- Metrics.IndexAgreesWithLog: sums are exact, without floating-point rounding; `reset`, `renderPrometheus` and `formatLabels` are not modelled.
- JobOutput.VerdictLineByLine: ASCII output; a multi-byte character cut by the bound, and white space beyond ASCII, are not modelled.
- Field validators: the form of session descriptors, prompts, Slurm profiles, policy hosts and deployment settings, apart from the session, alias, payload and job ids that workload tokens use. Each is a list of independent tests on one value with no state.
- Bridge.BridgeConnection.OnMessage: a text frame `null` before acceptance closes here; in the source reading its `type` throws out of the handler.
