/** Logs of token events, and how many consumes a log grants to one issue of a token. */
module UseLog {
  import opened Tokens
  import opened TokenRegistry
  import opened TokenHistories
  import opened Runs

  datatype Event =
    | Issued(key: Digest, maxUses: int)
    | Accepted(key: Digest)
    | RevokeStored(key: Digest)
    | Other

  /** Consumes accepted since the last issue of the key. */
  function Uses(log: seq<Event>, key: Digest): nat {
    if log == [] then 0
    else match Last(log)
      case Issued(k, _) => if k == key then 0 else Uses(Init(log), key)
      case Accepted(k) => (if k == key then 1 else 0) + Uses(Init(log), key)
      case _ => Uses(Init(log), key)
  }

  /** `maxUses` of the last issue of the key, or 0. */
  function Budget(log: seq<Event>, key: Digest): int {
    if log == [] then 0
    else match Last(log)
      case Issued(k, m) => if k == key then m else Budget(Init(log), key)
      case _ => Budget(Init(log), key)
  }

  function CountAccepted(log: seq<Event>, key: Digest): nat {
    if log == [] then 0 else CountAccepted(Init(log), key) + (if Last(log) == Accepted(key) then 1 else 0)
  }

  predicate IssuesIn(log: seq<Event>, key: Digest) {
    exists e <- log :: e.Issued? && e.key == key
  }

  lemma {:induction false} UsesSinceIssue(log: seq<Event>, i: nat, key: Digest)
    requires i < |log| && log[i].Issued? && log[i].key == key && !IssuesIn(log[i + 1..], key)
    ensures Uses(log, key) == CountAccepted(log[i + 1..], key) && Budget(log, key) == log[i].maxUses
  {
    if i + 1 < |log| {
      assert Last(log) in log[i + 1..];
      assert Init(log)[i + 1..] == Init(log[i + 1..]);
      UsesSinceIssue(Init(log), i, key);
    }
  }

  /** The log explains the records: stored uses are exactly the consumes accepted since the last issue,
      and no issue has been overspent. */
  ghost predicate Explains(log: seq<Event>, s: map<Digest, Record>) {
    && (forall d <- s :: s[d].used == Uses(log, d) && s[d].maxUses == Budget(log, d))
    && (forall d: Digest :: Uses(log, d) <= Budget(log, d))
  }

  /** What one registry step may do to the use counts, and the event it must report. */
  ghost predicate Accounts(s: map<Digest, Record>, s': map<Digest, Record>, event: Event) {
    && (event.Issued? ==> event.maxUses >= 0)
    && (event.Accepted? ==> event.key in s && s[event.key].used < s[event.key].maxUses)
    && (forall d <- s' ::
          if event.Issued? && event.key == d then s'[d].used == 0 && s'[d].maxUses == event.maxUses
          else
            && d in s && s'[d].maxUses == s[d].maxUses
            && s'[d].used == s[d].used + (if event == Accepted(d) then 1 else 0))
  }

  lemma AccountingExplains(log: seq<Event>, s: map<Digest, Record>, s': map<Digest, Record>, event: Event)
    requires Explains(log, s) && Accounts(s, s', event)
    ensures Explains(log + [event], s')
  {
    var log' := log + [event];
    assert Init(log') == log && Last(log') == event;
    forall d: Digest ensures Uses(log', d) <= Budget(log', d) {
      assert Uses(log, d) <= Budget(log, d);
    }
  }

  /** The event that a registry call with this verdict reports. */
  function CallEvent(c: Call, v: Verdict): Event {
    if v.None? then Other
    else
      match c.op
      case IssueOp(token, _, _) => Issued(Sha256(token), v.value.maxUses)
      case ConsumeOp(token, _) => Accepted(Sha256(token))
      case _ => Other
  }

  lemma ConsumeAccounts(s: Records, token: string, e: Expected, now: int)
    ensures var (s', r) := Consume(s, token, e, now);
      Accounts(s, s', if r.Ok? then Accepted(Sha256(token)) else Other)
  {
  }

  /** Every registry call accounts for its uses: a consume for one, an issue for a fresh budget. */
  lemma CallAccounts(s: Records, c: Call)
    ensures var (s', v) := Apply(s, c); Accounts(s, s', CallEvent(c, v))
  {
    if c.op.ConsumeOp? {
      ConsumeAccounts(s, c.op.token, c.op.expected, c.now);
    }
  }
}
