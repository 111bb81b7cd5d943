/** Rollback protection for accepted policies: the check, and what it guarantees over a serial run. */
module PolicyRollback {
  import opened Wrappers

  datatype Policy = Policy(policyId: string, sequence: int, fingerprint: string)

  datatype Error = RollbackRejected | SequenceReuseRejected

  /** `evaluatePolicyRollback`: the error thrown, or None. */
  function Evaluate(p: Policy, previous: Option<Policy>): Option<Error> {
    if previous.None? || previous.value.policyId != p.policyId then None
    else if previous.value.sequence > p.sequence then Some(RollbackRejected)
    else if previous.value.sequence == p.sequence && previous.value.fingerprint != ""
      && previous.value.fingerprint != p.fingerprint then Some(SequenceReuseRejected)
    else None
  }

  /** `rememberProductionPolicy`: an accepted policy replaces the stored one. */
  function Remember(p: Policy, stored: Option<Policy>): Option<Policy> {
    if Evaluate(p, stored).None? then Some(p) else stored
  }

  /** The policies accepted when `offers` are presented one after the other. */
  function Accepted(stored: Option<Policy>, offers: seq<Policy>): seq<Policy>
    decreases |offers|
  {
    if offers == [] then []
    else
      (if Evaluate(offers[0], stored).None? then [offers[0]] else [])
      + Accepted(Remember(offers[0], stored), offers[1..])
  }

  /** `q` may come after `p`: no older, and not a second policy under the same number. */
  predicate Follows(p: Policy, q: Policy) {
    p.sequence <= q.sequence && (p.sequence == q.sequence ==> p.fingerprint == q.fingerprint)
  }

  /** Fingerprints are digests, so none is empty. */
  predicate Known(ps: seq<Policy>) {
    forall p <- ps :: p.fingerprint != ""
  }

  /** Each policy is admitted on top of the one before it. */
  predicate Chain(acc: seq<Policy>) {
    forall n | 0 < n < |acc| :: Evaluate(acc[n], Some(acc[n - 1])).None?
  }

  function Before(stored: Option<Policy>): seq<Policy> {
    if stored.Some? then [stored.value] else []
  }

  /** The stored policy and the acceptances after it form a chain. */
  lemma {:induction false} AcceptedChain(stored: Option<Policy>, offers: seq<Policy>)
    ensures Chain(Before(stored) + Accepted(stored, offers))
    ensures forall p <- Accepted(stored, offers) :: p in offers
    decreases |offers|
  {
    if offers != [] {
      var next := Remember(offers[0], stored);
      var rest := Accepted(next, offers[1..]);
      AcceptedChain(next, offers[1..]);
      if Evaluate(offers[0], stored).None? {
        assert Before(next) + rest == [offers[0]] + rest;
        assert Accepted(stored, offers) == [offers[0]] + rest;
        ChainPrepends(stored, [offers[0]] + rest);
      } else {
        assert Accepted(stored, offers) == rest;
      }
    }
  }

  lemma ChainPrepends(stored: Option<Policy>, acc: seq<Policy>)
    requires acc != [] && Chain(acc) && Evaluate(acc[0], stored).None?
    ensures Chain(Before(stored) + acc)
  {
    var all := Before(stored) + acc;
    if stored.None? {
      assert all == acc;
    } else {
      forall n | 0 < n < |all| ensures Evaluate(all[n], Some(all[n - 1])).None? {
        assert all[n] == acc[n - 1] && (n > 1 ==> all[n - 1] == acc[n - 2]);
      }
    }
  }

  // ------------------------------------------------------------------ what is admitted

  /** On the stored id a policy is admitted exactly when it follows the stored one, and the refusal tells an older
      number from a second policy under the same number. Another id and an empty store admit everything. */
  lemma AdmitsExactly(p: Policy, stored: Policy)
    requires stored.fingerprint != ""
    ensures Evaluate(p, None).None? && (p.policyId != stored.policyId ==> Evaluate(p, Some(stored)).None?)
    ensures p.policyId == stored.policyId ==> (Evaluate(p, Some(stored)).None? <==> Follows(stored, p))
    ensures p.policyId == stored.policyId && p.sequence < stored.sequence ==>
      Evaluate(p, Some(stored)) == Some(RollbackRejected)
    ensures p.policyId == stored.policyId && p.sequence == stored.sequence && p.fingerprint != stored.fingerprint ==>
      Evaluate(p, Some(stored)) == Some(SequenceReuseRejected)
  {
  }

  /** A stored policy without a fingerprint binds its number to no policy. */
  lemma WithoutFingerprint(p: Policy, stored: Policy)
    requires stored.fingerprint == "" && p.policyId == stored.policyId
    ensures Evaluate(p, Some(stored)).None? <==> stored.sequence <= p.sequence
  {
  }

  /** `p` may come right after the accepted policies `acc`: it follows the last of them unless that is of
      another id. */
  predicate MayFollow(acc: seq<Policy>, p: Policy) {
    acc == [] || acc[|acc| - 1].policyId != p.policyId || Follows(acc[|acc| - 1], p)
  }

  /** What is stored once `acc` have been accepted. */
  function Latest(stored: Option<Policy>, acc: seq<Policy>): Option<Policy> {
    if acc == [] then stored else Some(acc[|acc| - 1])
  }

  function Admitted(p: Policy, stored: Option<Policy>): seq<Policy> {
    if Evaluate(p, stored).None? then [p] else []
  }

  lemma OneOffer(stored: Option<Policy>, q: Policy, offers: seq<Policy>)
    ensures Accepted(stored, [q] + offers) == Admitted(q, stored) + Accepted(Remember(q, stored), offers)
    ensures forall acc :: Latest(stored, Admitted(q, stored) + acc) == Latest(Remember(q, stored), acc)
  {
    assert ([q] + offers)[1..] == offers;
    forall acc ensures Latest(stored, Admitted(q, stored) + acc) == Latest(Remember(q, stored), acc) {
      var all := Admitted(q, stored) + acc;
      assert acc != [] ==> all[|all| - 1] == acc[|acc| - 1];
    }
  }

  lemma {:induction false} AcceptedAfter(stored: Option<Policy>, offers: seq<Policy>, p: Policy)
    ensures var acc := Accepted(stored, offers);
      Accepted(stored, offers + [p]) == acc + Admitted(p, Latest(stored, acc))
    decreases |offers|
  {
    if offers == [] {
      OneOffer(stored, p, []);
      assert [] + [p] == [p] + [];
      assert Accepted(Remember(p, stored), []) == [];
      assert [] + Admitted(p, stored) == Admitted(p, stored) + [];
    } else {
      var q, rest := offers[0], offers[1..];
      assert offers == [q] + rest && offers + [p] == [q] + (rest + [p]);
      OneOffer(stored, q, rest);
      OneOffer(stored, q, rest + [p]);
      AcceptedAfter(Remember(q, stored), rest, p);
    }
  }

  /** After any offers of any ids, one more offer is accepted exactly when it may follow what was accepted. */
  lemma NextOfferExactly(offers: seq<Policy>, p: Policy)
    requires Known(offers)
    ensures var acc := Accepted(None, offers);
      Accepted(None, offers + [p]) == acc + if MayFollow(acc, p) then [p] else []
  {
    AcceptedAfter(None, offers, p);
    AcceptedChain(None, offers);
    var acc := Accepted(None, offers);
    assert acc != [] ==> acc[|acc| - 1] in acc;
  }

  lemma {:induction false} NoMoreThanOffered(stored: Option<Policy>, offers: seq<Policy>)
    ensures |Accepted(stored, offers)| <= |offers|
    decreases |offers|
  {
    if offers != [] {
      NoMoreThanOffered(Remember(offers[0], stored), offers[1..]);
    }
  }

  /** Each policy of the same id as the one before it follows that one. */
  predicate InOrder(offers: seq<Policy>) {
    forall n | 0 < n < |offers| && offers[n - 1].policyId == offers[n].policyId :: Follows(offers[n - 1], offers[n])
  }

  lemma InOrderExtends(front: seq<Policy>, p: Policy)
    ensures InOrder(front + [p]) <==> InOrder(front) && MayFollow(front, p)
  {
    var all := front + [p];
    assert forall n | 0 <= n < |front| :: all[n] == front[n];
    assert all[|front|] == p;
  }

  lemma SameEnd(acc: seq<Policy>, end: seq<Policy>, front: seq<Policy>, p: Policy)
    requires |acc| <= |front| && |end| <= 1
    ensures acc + end == front + [p] <==> acc == front && end == [p]
  {
    if acc + end == front + [p] {
      assert |acc| == |front| && |end| == 1;
      assert acc == (acc + end)[..|acc|] && front == (front + [p])[..|acc|];
      assert end[0] == (acc + end)[|acc|] && p == (front + [p])[|acc|];
    }
  }

  /** All offers are accepted exactly when each one of the same id as the one before it follows that one. */
  lemma {:induction false} AllAcceptedExactly(offers: seq<Policy>)
    requires Known(offers)
    ensures Accepted(None, offers) == offers <==> InOrder(offers)
  {
    if offers != [] {
      var k := |offers| - 1;
      var front, p := offers[..k], offers[k];
      assert offers == front + [p];
      assert forall x <- front :: x in offers;
      var acc := Accepted(None, front);
      NextOfferExactly(front, p);
      AllAcceptedExactly(front);
      NoMoreThanOffered(None, front);
      InOrderExtends(front, p);
      SameEnd(acc, if MayFollow(acc, p) then [p] else [], front, p);
    }
  }

  // ------------------------------------------------------------------ which runs roll nothing back

  /** No policy comes after one of the same id that it does not follow. */
  predicate RollbackFree(acc: seq<Policy>) {
    forall i, j | 0 <= i < j < |acc| && acc[i].policyId == acc[j].policyId :: Follows(acc[i], acc[j])
  }

  /** Position `n` takes an id up again right after another id, behind an earlier acceptance of it. */
  predicate RelapsesAt(acc: seq<Policy>, n: int) {
    && 0 < n < |acc| && acc[n - 1].policyId != acc[n].policyId
    && exists i | 0 <= i < n :: acc[i].policyId == acc[n].policyId && !Follows(acc[i], acc[n])
  }

  lemma {:induction false} PairFollows(acc: seq<Policy>, i: nat, j: nat)
    requires Chain(acc) && Known(acc) && (forall n :: !RelapsesAt(acc, n))
    requires i < j < |acc| && acc[i].policyId == acc[j].policyId
    ensures Follows(acc[i], acc[j])
    decreases j
  {
    assert !RelapsesAt(acc, j);
    if acc[j - 1].policyId == acc[j].policyId {
      assert acc[j - 1] in acc;
      assert Follows(acc[j - 1], acc[j]);
      if i < j - 1 {
        PairFollows(acc, i, j - 1);
      }
    }
  }

  /** A chain rolls nothing back exactly when no position relapses. */
  lemma RollbackFreeExactly(acc: seq<Policy>)
    requires Chain(acc) && Known(acc)
    ensures RollbackFree(acc) <==> forall n :: !RelapsesAt(acc, n)
  {
    if forall n :: !RelapsesAt(acc, n) {
      forall i, j | 0 <= i < j < |acc| && acc[i].policyId == acc[j].policyId ensures Follows(acc[i], acc[j]) {
        PairFollows(acc, i, j);
      }
    }
  }

  /** Over every serial run from any stored state and over any ids, what is accepted rolls nothing back exactly
      when no acceptance relapses. */
  lemma RunsAreRollbackFreeExactly(stored: Option<Policy>, offers: seq<Policy>)
    requires Known(Before(stored)) && Known(offers)
    ensures var acc := Before(stored) + Accepted(stored, offers);
      RollbackFree(acc) <==> forall n :: !RelapsesAt(acc, n)
  {
    AcceptedChain(stored, offers);
    RollbackFreeExactly(Before(stored) + Accepted(stored, offers));
  }

  /** What the stored policy protects: everything of its id that the check now admits follows `p` exactly when
      the stored policy is of that id and follows `p` itself. */
  lemma ProtectsExactly(p: Policy, stored: Policy)
    requires stored.fingerprint != ""
    ensures (forall q: Policy | q.policyId == p.policyId && Evaluate(q, Some(stored)).None? :: Follows(p, q))
       <==> stored.policyId == p.policyId && Follows(p, stored)
  {
    if stored.policyId != p.policyId {
      var older := p.(sequence := p.sequence - 1);
      assert Evaluate(older, Some(stored)).None? && !Follows(p, older);
    } else {
      assert Evaluate(stored, Some(stored)).None?;
    }
  }

  // ------------------------------------------------------------------ one id

  predicate OnePolicyId(id: string, offers: seq<Policy>) {
    Known(offers) && forall p <- offers :: p.policyId == id
  }

  /** On one policy id, later acceptances follow the stored policy, and each other. */
  lemma AcceptedFollow(id: string, stored: Option<Policy>, offers: seq<Policy>)
    requires OnePolicyId(id, offers) && OnePolicyId(id, Before(stored))
    ensures stored.Some? ==> forall p <- Accepted(stored, offers) :: Follows(stored.value, p)
    ensures forall i, j | 0 <= i < j < |Accepted(stored, offers)| ::
      Follows(Accepted(stored, offers)[i], Accepted(stored, offers)[j])
  {
    var rest := Accepted(stored, offers);
    AcceptedChain(stored, offers);
    assert OnePolicyId(id, Before(stored) + rest);
    OneIdIsFree(id, Before(stored) + rest);
    FreeParts(Before(stored), rest, id);
    if stored.Some? {
      assert Before(stored)[0] == stored.value;
      forall p <- rest ensures Follows(stored.value, p) {
        var j :| 0 <= j < |rest| && rest[j] == p;
        assert Follows(Before(stored)[0], rest[j]);
      }
    }
  }

  lemma OneIdIsFree(id: string, acc: seq<Policy>)
    requires Chain(acc) && OnePolicyId(id, acc)
    ensures RollbackFree(acc)
  {
    assert forall n | 0 <= n < |acc| :: acc[n] in acc;
    RollbackFreeExactly(acc);
  }

  lemma FreeParts(front: seq<Policy>, rest: seq<Policy>, id: string)
    requires RollbackFree(front + rest) && OnePolicyId(id, front + rest)
    ensures forall i, j | 0 <= i < |front| && 0 <= j < |rest| :: Follows(front[i], rest[j])
    ensures forall i, j | 0 <= i < j < |rest| :: Follows(rest[i], rest[j])
  {
    var acc, k := front + rest, |front|;
    assert forall n | 0 <= n < |acc| :: acc[n] in acc;
    forall i, j | 0 <= i < |front| && 0 <= j < |rest| ensures Follows(front[i], rest[j]) {
      assert acc[i] == front[i] && acc[k + j] == rest[j];
    }
    forall i, j | 0 <= i < j < |rest| ensures Follows(rest[i], rest[j]) {
      assert acc[k + i] == rest[i] && acc[k + j] == rest[j];
    }
  }

  /** On one policy id, accepted sequence numbers never decrease and each is bound to one fingerprint. */
  lemma NoRollback(id: string, offers: seq<Policy>, i: nat, j: nat)
    requires OnePolicyId(id, offers) && i < j < |Accepted(None, offers)|
    ensures Accepted(None, offers)[i].sequence <= Accepted(None, offers)[j].sequence
    ensures Accepted(None, offers)[i].sequence == Accepted(None, offers)[j].sequence ==>
      Accepted(None, offers)[i].fingerprint == Accepted(None, offers)[j].fingerprint
  {
    AcceptedFollow(id, None, offers);
    assert Follows(Accepted(None, offers)[i], Accepted(None, offers)[j]);
  }

  /** Relapses exist: one acceptance under another id in between admits any older policy. */
  lemma OtherIdForgets(newer: Policy, other: Policy, older: Policy)
    requires newer.policyId == older.policyId && other.policyId != newer.policyId
    ensures Accepted(None, [newer, other, older]) == [newer, other, older]
    ensures !Follows(newer, older) ==> RelapsesAt([newer, other, older], 2)
  {
    assert [newer, other, older][1..] == [other, older] && [other, older][1..] == [older] && [older][1..] == [];
    var s1 := Remember(newer, None);
    assert Accepted(None, [newer, other, older]) == [newer] + Accepted(s1, [other, older]);
    var s2 := Remember(other, s1);
    assert Accepted(s1, [other, older]) == [other] + Accepted(s2, [older]);
    assert Accepted(s2, [older]) == [older] + Accepted(Remember(older, s2), []);
    var acc := [newer, other, older];
    assert acc[0] == newer && acc[1] == other && acc[2] == older;
  }
}
