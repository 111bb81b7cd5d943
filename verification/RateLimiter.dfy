/** The fixed-window memory rate limiter, and how many consumes it can accept in any interval. */
module RateLimiter {
  import opened Wrappers

  datatype Bucket = Bucket(count: nat, resetAt: int)

  type Buckets = map<string, Bucket>

  datatype Code = InvalidWindow | InvalidMax | InvalidKey | InvalidScope | RateLimitExceeded

  datatype Granted = Granted(ok: bool, remaining: nat, resetAt: int)

  /** `keyFor`: an absent scope is "default". */
  function KeyFor(scope: Option<string>, key: string): Result<string, Code> {
    var s := if scope.Some? then scope.value else "default";
    if !(1 <= |key| <= 512) then Err(InvalidKey)
    else if !(1 <= |s| <= 128) then Err(InvalidScope)
    else Ok(s + ":" + key)
  }

  /** `currentBucket`: the live bucket, or a fresh window that starts now. */
  function Current(s: Buckets, id: string, now: int, windowMs: nat): Buckets {
    if id in s && now < s[id].resetAt then s else s[id := Bucket(0, now + windowMs)]
  }

  function Remaining(b: Bucket, max: nat): nat {
    if b.count < max then max - b.count else 0
  }

  function ConsumeIn(s: Buckets, id: string, now: int, windowMs: nat, max: nat): (Buckets, Result<Granted, Code>) {
    var s' := Current(s, id, now, windowMs);
    var b := s'[id];
    if b.count >= max then (s', Err(RateLimitExceeded))
    else
      var b' := b.(count := b.count + 1);
      (s'[id := b'], Ok(Granted(true, Remaining(b', max), b'.resetAt)))
  }

  /** A check reports the live bucket and counts nothing. */
  function CheckIn(s: Buckets, id: string, now: int, windowMs: nat, max: nat): (Buckets, Result<Granted, Code>) {
    var s' := Current(s, id, now, windowMs);
    (s', Ok(Granted(s'[id].count < max, Remaining(s'[id], max), s'[id].resetAt)))
  }

  /** A call as its caller makes it. */
  datatype Request = Request(consume: bool, scope: Option<string>, key: string, now: int)

  function Answered(s: Buckets, q: Request, windowMs: nat, max: nat): (Buckets, Result<Granted, Code>) {
    match KeyFor(q.scope, q.key)
    case Err(code) => (s, Err(code))
    case Ok(id) => if q.consume then ConsumeIn(s, id, q.now, windowMs, max) else CheckIn(s, id, q.now, windowMs, max)
  }

  class MemoryRateLimiter {
    const windowMs: nat
    const max: nat
    var buckets: Buckets

    constructor (windowMs: nat, max: nat)
      ensures this.windowMs == windowMs && this.max == max && buckets == map[]
    {
      this.windowMs, this.max := windowMs, max;
      buckets := map[];
    }

    method CurrentBucket(id: string, now: int) returns (b: Bucket)
      modifies this
      ensures buckets == Current(old(buckets), id, now, windowMs) && b == buckets[id]
    {
      if id !in buckets || buckets[id].resetAt <= now {
        buckets := buckets[id := Bucket(0, now + windowMs)];
      }
      b := buckets[id];
    }

    method CheckLimit(scope: Option<string>, key: string, now: int) returns (r: Result<Granted, Code>)
      modifies this
      ensures match KeyFor(scope, key)
        case Err(code) => r == Err(code) && buckets == old(buckets)
        case Ok(id) =>
          && buckets == Current(old(buckets), id, now, windowMs)
          && r == Ok(Granted(buckets[id].count < max, Remaining(buckets[id], max), buckets[id].resetAt))
      ensures (buckets, r) == Answered(old(buckets), Request(false, scope, key, now), windowMs, max)
    {
      var id := KeyFor(scope, key);
      if id.Err? {
        return Err(id.error);
      }
      var b := CurrentBucket(id.value, now);
      r := Ok(Granted(b.count < max, Remaining(b, max), b.resetAt));
    }

    method Consume(scope: Option<string>, key: string, now: int) returns (r: Result<Granted, Code>)
      modifies this
      ensures match KeyFor(scope, key)
        case Err(code) => r == Err(code) && buckets == old(buckets)
        case Ok(id) => (buckets, r) == ConsumeIn(old(buckets), id, now, windowMs, max)
      ensures (buckets, r) == Answered(old(buckets), Request(true, scope, key, now), windowMs, max)
    {
      var id := KeyFor(scope, key);
      if id.Err? {
        return Err(id.error);
      }
      var b := CurrentBucket(id.value, now);
      if b.count >= max {
        return Err(RateLimitExceeded);
      }
      var b' := b.(count := b.count + 1);
      buckets := buckets[id.value := b'];
      r := Ok(Granted(true, Remaining(b', max), b'.resetAt));
    }
  }

  /** `createMemoryRateLimiter`; None stands for a value that is not an integer. */
  method CreateMemoryRateLimiter(windowMs: Option<int>, max: Option<int>) returns (r: Result<MemoryRateLimiter, Code>)
    ensures r.Ok? <==> windowMs.Some? && windowMs.value >= 100 && max.Some? && max.value >= 1
    ensures r.Ok? ==>
      fresh(r.value) && r.value.windowMs == windowMs.value && r.value.max == max.value && r.value.buckets == map[]
    ensures r.Err? ==> r.error == if windowMs.None? || windowMs.value < 100 then InvalidWindow else InvalidMax
  {
    if windowMs.None? || windowMs.value < 100 {
      return Err(InvalidWindow);
    }
    if max.None? || max.value < 1 {
      return Err(InvalidMax);
    }
    var limiter := new MemoryRateLimiter(windowMs.value, max.value);
    r := Ok(limiter);
  }

  // ------------------------------------------------------------------ which calls share a bucket

  /** A key of 1 to 512 characters and a scope of 1 to 128 are legal, and the key is tested first. */
  lemma KeyedExactly(scope: string, key: string)
    ensures KeyFor(None, key) == KeyFor(Some("default"), key)
    ensures KeyFor(Some(scope), key).Ok? <==> 1 <= |key| <= 512 && 1 <= |scope| <= 128
    ensures KeyFor(Some(scope), key) == Err(InvalidKey) <==> |key| == 0 || |key| > 512
    ensures KeyFor(Some(scope), key) == Err(InvalidScope) <==> 1 <= |key| <= 512 && (|scope| == 0 || |scope| > 128)
  {
  }

  /** A pair of scope and key; an absent scope is "default". */
  predicate Names(q: Request, scope: string, key: string) {
    q.key == key && match q.scope case Some(s) => s == scope case None => scope == "default"
  }

  /** `scope'` holds `scope` and a colon in front of some `t`, and `key` holds `t` and a colon in front of `key'`. */
  predicate RunsInto(scope: string, key: string, scope': string, key': string) {
    && |scope| < |scope'| && scope' == scope + ":" + scope'[|scope| + 1..]
    && key == scope'[|scope| + 1..] + ":" + key'
  }

  lemma {:induction false} SameColon(a: string, x: string, b: string, y: string)
    requires |a| <= |b|
    ensures a + ":" + x == b + ":" + y <==> (a == b && x == y) || RunsInto(a, x, b, y)
  {
    var u, v, n := a + ":" + x, b + ":" + y, |a|;
    assert u[..n] == a && u[n] == ':' && u[n + 1..] == x;
    assert v[..|b|] == b && v[|b|] == ':' && v[|b| + 1..] == y;
    if n < |b| {
      assert v[n + 1..] == b[n + 1..] + ":" + y;
      assert b == b[..n] + [b[n]] + b[n + 1..];
      assert v[..n] == b[..n] && v[n] == b[n];
      assert u == u[..n] + [u[n]] + u[n + 1..] && v == v[..n] + [v[n]] + v[n + 1..];
    }
  }

  /** Legal calls share a bucket exactly when scope and key agree, or one scope runs into the other key. */
  lemma SharedExactly(scope: string, key: string, scope': string, key': string)
    requires KeyFor(Some(scope), key).Ok? && KeyFor(Some(scope'), key').Ok?
    ensures KeyFor(Some(scope), key) == KeyFor(Some(scope'), key') <==>
      (scope == scope' && key == key') || RunsInto(scope, key, scope', key') || RunsInto(scope', key', scope, key)
  {
    if |scope| <= |scope'| {
      SameColon(scope, key, scope', key');
    } else {
      SameColon(scope', key', scope, key);
    }
  }

  lemma RunsOverColon(scope: string, key: string, scope': string, key': string)
    ensures RunsInto(scope, key, scope', key') ==> ':' in scope'
  {
    if RunsInto(scope, key, scope', key') {
      assert scope'[|scope|] == ':';
    }
  }

  lemma PlainScopesShareExactly(scope: string, key: string, scope': string, key': string)
    requires ':' !in scope && ':' !in scope'
    requires KeyFor(Some(scope), key).Ok? && KeyFor(Some(scope'), key').Ok?
    ensures KeyFor(Some(scope), key) == KeyFor(Some(scope'), key') <==> scope == scope' && key == key'
  {
    SharedExactly(scope, key, scope', key');
    RunsOverColon(scope, key, scope', key');
    RunsOverColon(scope', key', scope, key);
  }

  // ------------------------------------------------------------------ histories of calls

  /** The answers that the calls with one scope and key get within a history. */
  function Answers(s: Buckets, calls: seq<Request>, scope: string, key: string, windowMs: nat, max: nat)
    : seq<Result<Granted, Code>>
    decreases |calls|
  {
    if calls == [] then []
    else
      var (s', answer) := Answered(s, calls[0], windowMs, max);
      (if Names(calls[0], scope, key) then [answer] else []) + Answers(s', calls[1..], scope, key, windowMs, max)
  }

  /** A history without the calls of other scopes and keys. */
  function Only(calls: seq<Request>, scope: string, key: string): seq<Request> {
    if calls == [] then []
    else (if Names(calls[0], scope, key) then [calls[0]] else []) + Only(calls[1..], scope, key)
  }

  /** No other pair in the history shares the bucket of this one. */
  ghost predicate Unshared(calls: seq<Request>, scope: string, key: string) {
    forall q <- calls :: KeyFor(q.scope, q.key).Ok? && KeyFor(q.scope, q.key) == KeyFor(Some(scope), key) ==>
      Names(q, scope, key)
  }

  ghost predicate SameBucket(s: Buckets, s': Buckets, bucket: Result<string, Code>) {
    bucket.Ok? ==>
      && (bucket.value in s <==> bucket.value in s')
      && (bucket.value in s ==> s[bucket.value] == s'[bucket.value])
  }

  lemma NamedKey(q: Request, scope: string, key: string)
    requires Names(q, scope, key)
    ensures KeyFor(q.scope, q.key) == KeyFor(Some(scope), key)
  {
  }

  /** One call, alone or ignored. */
  lemma BucketStep(s: Buckets, s': Buckets, q: Request, bucket: Result<string, Code>, windowMs: nat, max: nat)
    requires SameBucket(s, s', bucket)
    ensures KeyFor(q.scope, q.key) == bucket ==>
      && SameBucket(Answered(s, q, windowMs, max).0, Answered(s', q, windowMs, max).0, bucket)
      && Answered(s, q, windowMs, max).1 == Answered(s', q, windowMs, max).1
    ensures KeyFor(q.scope, q.key) != bucket ==> SameBucket(Answered(s, q, windowMs, max).0, s', bucket)
  {
  }

  /** The calls of a pair are answered as if no other call had been made. */
  lemma {:induction false} AnswersOfOnly(
      s: Buckets, s': Buckets, calls: seq<Request>, scope: string, key: string, windowMs: nat, max: nat)
    requires Unshared(calls, scope, key) && SameBucket(s, s', KeyFor(Some(scope), key))
    ensures var alone := Only(calls, scope, key);
      Answers(s, calls, scope, key, windowMs, max) == Answers(s', alone, scope, key, windowMs, max)
    decreases |calls|
  {
    if calls != [] {
      var q, rest := calls[0], calls[1..];
      BucketStep(s, s', q, KeyFor(Some(scope), key), windowMs, max);
      if Names(q, scope, key) {
        NamedKey(q, scope, key);
        assert ([q] + Only(rest, scope, key))[1..] == Only(rest, scope, key);
        var next, next' := Answered(s, q, windowMs, max).0, Answered(s', q, windowMs, max).0;
        AnswersOfOnly(next, next', rest, scope, key, windowMs, max);
      } else {
        assert q in calls;
        var next := Answered(s, q, windowMs, max).0;
        AnswersOfOnly(next, s', rest, scope, key, windowMs, max);
        assert Only(calls, scope, key) == Only(rest, scope, key);
        assert Answers(s, calls, scope, key, windowMs, max) == Answers(next, rest, scope, key, windowMs, max);
      }
    }
  }

  /** Histories that differ only in checks and consumes of other scopes and keys, anywhere in between, answer the
      calls of this pair alike. */
  lemma OtherCallsDoNotMatter(
      calls: seq<Request>, calls': seq<Request>, scope: string, key: string, windowMs: nat, max: nat)
    requires Only(calls, scope, key) == Only(calls', scope, key)
    requires Unshared(calls, scope, key) && Unshared(calls', scope, key)
    ensures Answers(map[], calls, scope, key, windowMs, max) == Answers(map[], calls', scope, key, windowMs, max)
  {
    AnswersOfOnly(map[], map[], calls, scope, key, windowMs, max);
    AnswersOfOnly(map[], map[], calls', scope, key, windowMs, max);
  }

  /** Where no scope holds a colon, nothing is shared. */
  lemma PlainScopesAreUnshared(calls: seq<Request>, scope: string, key: string)
    requires ':' !in scope && forall q <- calls :: q.scope.Some? ==> ':' !in q.scope.value
    ensures Unshared(calls, scope, key)
  {
    forall q <- calls | KeyFor(q.scope, q.key).Ok? && KeyFor(q.scope, q.key) == KeyFor(Some(scope), key)
      ensures Names(q, scope, key)
    {
      var other := if q.scope.Some? then q.scope.value else "default";
      PlainScopesShareExactly(other, q.key, scope, key);
    }
  }

  /** A consume changes what a check of a legal pair reports afterwards exactly when it shares its bucket. */
  lemma ConsumeShowsExactly(q: Request, scope: string, key: string, windowMs: nat, max: nat)
    requires q.consume && KeyFor(Some(scope), key).Ok? && windowMs >= 100 && max >= 1
    ensures var check := Request(false, Some(scope), key, q.now);
      Answered(Answered(map[], q, windowMs, max).0, check, windowMs, max).1 != Answered(map[], check, windowMs, max).1
      <==> KeyFor(q.scope, q.key) == KeyFor(Some(scope), key)
  {
    if KeyFor(q.scope, q.key) != KeyFor(Some(scope), key) {
      BucketStep(map[], map[], q, KeyFor(Some(scope), key), windowMs, max);
    }
  }

  /** A check changes nothing for the consume after it and says what that consume will answer. */
  lemma CheckPredictsConsume(s: Buckets, scope: Option<string>, key: string, now: int, windowMs: nat, max: nat)
    requires KeyFor(scope, key).Ok? && windowMs >= 100
    ensures var check, consume := Request(false, scope, key, now), Request(true, scope, key, now);
      var (s', predicted) := Answered(s, check, windowMs, max);
      var (_, answer) := Answered(s, consume, windowMs, max);
      && Answered(s', consume, windowMs, max) == Answered(s, consume, windowMs, max)
      && Answered(s', check, windowMs, max) == (s', predicted)
      && predicted.Ok? && (predicted.value.ok <==> predicted.value.remaining > 0)
      && answer == if predicted.value.ok
           then Ok(Granted(true, predicted.value.remaining - 1, predicted.value.resetAt)) else Err(RateLimitExceeded)
  {
  }

  /** The first call of a pair finds a whole window ahead of it and nothing counted. */
  lemma FirstCheck(s: Buckets, scope: Option<string>, key: string, now: int, windowMs: nat, max: nat)
    requires KeyFor(scope, key).Ok? && KeyFor(scope, key).value !in s && max >= 1
    ensures Answered(s, Request(false, scope, key, now), windowMs, max).1 == Ok(Granted(true, max, now + windowMs))
  {
  }

  // ------------------------------------------------------------------ runs over bucket ids

  datatype Call = Call(consume: bool, id: string, now: int)

  function After(s: Buckets, c: Call, windowMs: nat, max: nat): Buckets {
    if c.consume then ConsumeIn(s, c.id, c.now, windowMs, max).0 else Current(s, c.id, c.now, windowMs)
  }

  predicate Accepts(s: Buckets, c: Call, windowMs: nat, max: nat) {
    c.consume && ConsumeIn(s, c.id, c.now, windowMs, max).1.Ok?
  }

  predicate Nondecreasing(clock: int, calls: seq<Call>)
    decreases |calls|
  {
    calls != [] ==> clock <= calls[0].now && Nondecreasing(calls[0].now, calls[1..])
  }

  /** Consumes of `id` accepted at times in [lo, hi). */
  function AcceptedIn(s: Buckets, calls: seq<Call>, id: string, lo: int, hi: int, windowMs: nat, max: nat): nat
    decreases |calls|
  {
    if calls == [] then 0
    else
      var c := calls[0];
      (if c.id == id && lo <= c.now < hi && Accepts(s, c, windowMs, max) then 1 else 0)
      + AcceptedIn(After(s, c, windowMs, max), calls[1..], id, lo, hi, windowMs, max)
  }

  lemma {:induction false} NoneAfter(
      s: Buckets, calls: seq<Call>, id: string, clock: int, lo: int, hi: int, windowMs: nat, max: nat)
    requires Nondecreasing(clock, calls) && hi <= clock
    ensures AcceptedIn(s, calls, id, lo, hi, windowMs, max) == 0
    decreases |calls|
  {
    if calls != [] {
      NoneAfter(After(s, calls[0], windowMs, max), calls[1..], id, calls[0].now, lo, hi, windowMs, max);
    }
  }

  /** With a bucket of `count` that resets at `resetAt`, and `hi` at most j windows later, at most the rest
      of this bucket and j full buckets are accepted before `hi`. */
  lemma {:induction false} AcceptedFromBucket(
      s: Buckets, calls: seq<Call>, id: string, clock: int, lo: int, hi: int, windowMs: nat, max: nat, j: nat)
    requires Nondecreasing(clock, calls) && id in s && s[id].count <= max
    requires hi <= s[id].resetAt + j * windowMs
    ensures AcceptedIn(s, calls, id, lo, hi, windowMs, max) <= (max - s[id].count) + j * max
    decreases |calls|
  {
    if calls != [] {
      var c, rest := calls[0], calls[1..];
      var s' := After(s, c, windowMs, max);
      if c.id != id || c.now < s[id].resetAt {
        AcceptedFromBucket(s', rest, id, c.now, lo, hi, windowMs, max, j);
      } else if hi <= c.now {
        NoneAfter(s, calls, id, c.now, lo, hi, windowMs, max);
      } else {
        assert j > 0;
        assert (j - 1) * windowMs == j * windowMs - windowMs && (j - 1) * max == j * max - max;
        AcceptedFromBucket(s', rest, id, c.now, lo, hi, windowMs, max, j - 1);
      }
    }
  }

  ghost predicate CountsFit(s: Buckets, max: nat) {
    forall id <- s :: s[id].count <= max
  }

  lemma {:induction false} AcceptedFromAnywhere(
      s: Buckets, calls: seq<Call>, id: string, clock: int, lo: int, k: nat, windowMs: nat, max: nat)
    requires Nondecreasing(clock, calls) && CountsFit(s, max)
    ensures AcceptedIn(s, calls, id, lo, lo + k * windowMs, windowMs, max) <= (k + 1) * max
    decreases |calls|
  {
    var hi := lo + k * windowMs;
    assert (k + 1) * max == k * max + max;
    if calls != [] {
      var c := calls[0];
      var s' := After(s, c, windowMs, max);
      if hi <= c.now {
        NoneAfter(s, calls, id, c.now, lo, hi, windowMs, max);
      } else if c.id != id || c.now < lo {
        AcceptedFromAnywhere(s', calls[1..], id, c.now, lo, k, windowMs, max);
      } else if id in s && c.now < s[id].resetAt {
        AcceptedFromBucket(s, calls, id, c.now, lo, hi, windowMs, max, k);
      } else {
        assert k > 0;
        assert (k - 1) * windowMs == k * windowMs - windowMs && (k - 1) * max == k * max - max;
        AcceptedFromBucket(s', calls[1..], id, c.now, lo, hi, windowMs, max, k - 1);
      }
    }
  }

  /** Any mix of checks and consumes, on any bucket ids, under a nondecreasing clock: in any half-open
      interval of length k windows at most (k + 1) * max consumes of one bucket id are accepted. */
  lemma IntervalBound(calls: seq<Call>, id: string, clock: int, lo: int, k: nat, windowMs: nat, max: nat)
    requires Nondecreasing(clock, calls)
    ensures AcceptedIn(map[], calls, id, lo, lo + k * windowMs, windowMs, max) <= (k + 1) * max
  {
    AcceptedFromAnywhere(map[], calls, id, clock, lo, k, windowMs, max);
  }

  // ------------------------------------------------------------------ the bound is attained

  function Burst(n: nat, id: string, now: int): (calls: seq<Call>)
    ensures |calls| == n
  {
    if n == 0 then [] else [Call(true, id, now)] + Burst(n - 1, id, now)
  }

  lemma {:induction false} BurstAccepted(
      s: Buckets, n: nat, more: seq<Call>, id: string, now: int, lo: int, hi: int, windowMs: nat, max: nat)
    requires id in s && now < s[id].resetAt && s[id].count + n <= max && lo <= now < hi
    ensures AcceptedIn(s, Burst(n, id, now) + more, id, lo, hi, windowMs, max)
         == n + AcceptedIn(s[id := s[id].(count := s[id].count + n)], more, id, lo, hi, windowMs, max)
  {
    if n == 0 {
      assert Burst(0, id, now) + more == more && s[id := s[id].(count := s[id].count)] == s;
    } else {
      var s', c := s[id := s[id].(count := s[id].count + 1)], Call(true, id, now);
      BurstSplit(n, id, now, more);
      assert After(s, c, windowMs, max) == s' && Accepts(s, c, windowMs, max);
      BurstAccepted(s', n - 1, more, id, now, lo, hi, windowMs, max);
      assert s'[id := s'[id].(count := s'[id].count + (n - 1))] == s[id := s[id].(count := s[id].count + n)];
    }
  }

  lemma BurstSplit(n: nat, id: string, now: int, more: seq<Call>)
    requires n > 0
    ensures var calls := Burst(n, id, now) + more;
      calls[0] == Call(true, id, now) && calls[1..] == Burst(n - 1, id, now) + more
  {
  }

  lemma {:induction false} BurstNondecreasing(n: nat, id: string, now: int, clock: int, more: seq<Call>)
    requires clock <= now && Nondecreasing(now, more)
    ensures Nondecreasing(clock, Burst(n, id, now) + more)
  {
    var calls := Burst(n, id, now) + more;
    if n == 0 {
      assert calls == more;
    } else {
      assert calls[1..] == Burst(n - 1, id, now) + more;
      BurstNondecreasing(n - 1, id, now, now, more);
    }
  }

  /** `max` consumes at the start of each of `r` windows, the first at `t`. */
  function Bursts(r: nat, id: string, t: int, windowMs: nat, max: nat): seq<Call> {
    if r == 0 then [] else Burst(max, id, t) + Bursts(r - 1, id, t + windowMs, windowMs, max)
  }

  lemma FullWindow(
      s: Buckets, more: seq<Call>, id: string, now: int, lo: int, hi: int, windowMs: nat, max: nat)
    requires id in s && s[id].resetAt <= now && lo <= now < hi && windowMs >= 1 && max >= 1
    ensures AcceptedIn(s, Burst(max, id, now) + more, id, lo, hi, windowMs, max)
         == max + AcceptedIn(s[id := Bucket(max, now + windowMs)], more, id, lo, hi, windowMs, max)
  {
    var calls, rest := Burst(max, id, now) + more, Burst(max - 1, id, now) + more;
    var begun := s[id := Bucket(1, now + windowMs)];
    assert calls[0] == Call(true, id, now) && calls[1..] == rest;
    assert After(s, calls[0], windowMs, max) == begun && Accepts(s, calls[0], windowMs, max);
    BurstAccepted(begun, max - 1, more, id, now, lo, hi, windowMs, max);
    assert begun[id := Bucket(max, now + windowMs)] == s[id := Bucket(max, now + windowMs)];
  }

  lemma OneOf(r: nat, x: nat)
    requires r > 0
    ensures r * x == (r - 1) * x + x && 0 <= (r - 1) * x
  {
  }

  lemma {:induction false} BurstsAccepted(
      s: Buckets, r: nat, id: string, t: int, lo: int, hi: int, windowMs: nat, max: nat)
    requires id in s && s[id].resetAt <= t && windowMs >= 1 && max >= 1 && lo <= t && t + r * windowMs < hi + windowMs
    ensures AcceptedIn(s, Bursts(r, id, t, windowMs, max), id, lo, hi, windowMs, max) == r * max
  {
    if r > 0 {
      var q, next := r - 1, t + windowMs;
      var rest := Bursts(q, id, next, windowMs, max);
      OneOf(r, windowMs);
      OneOf(r, max);
      FullWindow(s, rest, id, t, lo, hi, windowMs, max);
      BurstsAccepted(s[id := Bucket(max, next)], q, id, next, lo, hi, windowMs, max);
      assert Bursts(r, id, t, windowMs, max) == Burst(max, id, t) + rest;
    }
  }

  lemma {:induction false} BurstsNondecreasing(r: nat, id: string, t: int, clock: int, windowMs: nat, max: nat)
    requires clock <= t
    ensures Nondecreasing(clock, Bursts(r, id, t, windowMs, max))
  {
    if r > 0 {
      BurstsNondecreasing(r - 1, id, t + windowMs, t, windowMs, max);
      BurstNondecreasing(max, id, t, clock, Bursts(r - 1, id, t + windowMs, windowMs, max));
    }
  }

  /** A check opens a window; `max` consumes at its last instant and `max` more at the start of each of the
      `k` windows after it fall into one interval of `k` windows' length. */
  lemma BoundIsAttained(id: string, k: nat, windowMs: nat, max: nat) returns (calls: seq<Call>, lo: int)
    requires k >= 1 && windowMs >= 100 && max >= 1
    ensures Nondecreasing(0, calls)
    ensures AcceptedIn(map[], calls, id, lo, lo + k * windowMs, windowMs, max) == (k + 1) * max
  {
    lo := windowMs - 1;
    var hi, later := lo + k * windowMs, Bursts(k, id, windowMs, windowMs, max);
    var first := Burst(max, id, lo) + later;
    calls := [Call(false, id, 0)] + first;
    assert calls[1..] == first;
    OneOf(k, windowMs);
    OneOf(k + 1, max);
    BurstsNondecreasing(k, id, windowMs, lo, windowMs, max);
    BurstNondecreasing(max, id, lo, 0, later);
    var empty: Buckets := map[id := Bucket(0, windowMs)];
    var full := empty[id := Bucket(max, windowMs)];
    assert After(map[], calls[0], windowMs, max) == empty;
    BurstAccepted(empty, max, later, id, lo, lo, hi, windowMs, max);
    BurstsAccepted(full, k, id, windowMs, lo, hi, windowMs, max);
  }
}
