/** The text that a policy signature covers: the canonical JSON of the envelope without its signature. */
module PolicySigning {
  import opened Wrappers
  import opened JsonText
  import opened KeySort
  import opened CanonicalJson

  const SIGNATURE: Text :=
    ['s' as int, 'i' as int, 'g' as int, 'n' as int, 'a' as int, 't' as int, 'u' as int, 'r' as int, 'e' as int]

  lemma SignatureIsSpelled()
    ensures |SIGNATURE| == |"signature"| && forall i | 0 <= i < |SIGNATURE| :: SIGNATURE[i] == "signature"[i] as int
  {
  }

  /** `unsignedPolicyEnvelope` on the members of an envelope. */
  function Unsigned(ms: Members): Members {
    if ms == [] then []
    else if ms[0].key == SIGNATURE then Unsigned(ms[1..])
    else [ms[0]] + Unsigned(ms[1..])
  }

  /** `canonicalPolicySigningInput` */
  function SigningInput(envelope: Value, le: Order): Result<Text, Error> {
    if envelope.Obj? then Canonical(Obj(Unsigned(envelope.members)), le) else Err(NotAnObject)
  }

  /** Setting the signature member: in place when there is one, at the end otherwise. */
  function Attach(ms: Members, signature: Value): Members {
    if ms == [] then [Entry(SIGNATURE, signature)]
    else if ms[0].key == SIGNATURE then [Entry(SIGNATURE, signature)] + ms[1..]
    else [ms[0]] + Attach(ms[1..], signature)
  }

  lemma {:induction false} UnsignedMembers(ms: Members)
    ensures forall e :: e in Unsigned(ms) <==> e in ms && e.key != SIGNATURE
  {
    if ms != [] {
      UnsignedMembers(ms[1..]);
      assert ms == [ms[0]] + ms[1..];
    }
  }

  lemma {:induction false} AttachIsInvisible(ms: Members, signature: Value)
    requires DistinctKeys(ms)
    ensures Unsigned(Attach(ms, signature)) == Unsigned(ms)
  {
    var e := Entry(SIGNATURE, signature);
    if ms == [] {
      assert [e][1..] == [];
    } else if ms[0].key == SIGNATURE {
      assert ([e] + ms[1..])[1..] == ms[1..];
    } else {
      AttachIsInvisible(ms[1..], signature);
      assert Attach(ms, signature)[1..] == Attach(ms[1..], signature);
    }
  }

  lemma {:induction false} AttachMembers(ms: Members, signature: Value)
    requires DistinctKeys(ms)
    ensures forall e: Entry<Value> ::
      e in Attach(ms, signature) <==> e == Entry(SIGNATURE, signature) || (e in ms && e.key != SIGNATURE)
  {
    if ms != [] {
      assert ms == [ms[0]] + ms[1..];
      if ms[0].key == SIGNATURE {
        assert forall e <- ms[1..] :: e.key != SIGNATURE;
      } else {
        AttachMembers(ms[1..], signature);
      }
    }
  }

  lemma {:induction false} AttachKeepsDistinct(ms: Members, signature: Value)
    requires DistinctKeys(ms)
    ensures DistinctKeys(Attach(ms, signature))
  {
    if ms != [] && ms[0].key != SIGNATURE {
      AttachKeepsDistinct(ms[1..], signature);
      AttachMembers(ms[1..], signature);
      PrependKeepsDistinct(ms[0], Attach(ms[1..], signature));
    }
  }

  lemma PrependKeepsDistinct(e: Entry<Value>, ms: Members)
    requires DistinctKeys(ms) && forall m <- ms :: m.key != e.key
    ensures DistinctKeys([e] + ms)
  {
    assert forall j | 0 <= j < |ms| :: ms[j] in ms;
  }

  lemma {:induction false} UnsignedKeepsDistinct(ms: Members)
    requires DistinctKeys(ms)
    ensures DistinctKeys(Unsigned(ms))
  {
    if ms != [] {
      UnsignedKeepsDistinct(ms[1..]);
      UnsignedMembers(ms[1..]);
      if ms[0].key != SIGNATURE {
        forall j | 0 <= j < |Unsigned(ms[1..])| ensures Unsigned(ms[1..])[j].key != ms[0].key {
          assert Unsigned(ms[1..])[j] in ms[1..];
        }
      }
    }
  }

  lemma UnsignedWellFormed(ms: Members)
    requires WellFormed(Obj(ms))
    ensures WellFormed(Obj(Unsigned(ms)))
  {
    UnsignedKeepsDistinct(ms);
    UnsignedMembers(ms);
    forall i | 0 <= i < |Unsigned(ms)| ensures WellFormed(Unsigned(ms)[i].value) {
      assert Unsigned(ms)[i] in ms;
    }
  }

  lemma DefinedKey(ms: Members, k: Text)
    ensures HasKey(Defined(ms), k) <==> exists e <- ms :: e.key == k && !e.value.Undefined?
  {
    DefinedMembers(ms);
    if HasKey(Defined(ms), k) {
      var i :| 0 <= i < |Defined(ms)| && Defined(ms)[i].key == k;
      assert Defined(ms)[i] in ms;
    }
    if e :| e in ms && e.key == k && !e.value.Undefined? {
      assert e in Defined(ms);
      var i :| 0 <= i < |Defined(ms)| && Defined(ms)[i] == e;
    }
  }

  lemma UnsignedKey(ms: Members, k: Text)
    ensures HasKey(Defined(Unsigned(ms)), k) <==> HasKey(Defined(ms), k) && k != SIGNATURE
  {
    DefinedKey(ms, k);
    DefinedKey(Unsigned(ms), k);
    UnsignedMembers(ms);
  }

  /** Dropping the signatures of two equivalent envelopes leaves equivalent envelopes. */
  lemma UnsignedEquivalent(ms: Members, ns: Members)
    requires Equivalent(Obj(ms), Obj(ns))
    ensures Equivalent(Obj(Unsigned(ms)), Obj(Unsigned(ns)))
  {
    forall k: Text ensures HasKey(Defined(Unsigned(ms)), k) <==> HasKey(Defined(Unsigned(ns)), k) {
      UnsignedKey(ms, k);
      UnsignedKey(ns, k);
    }
    UnsignedMembers(ms);
    UnsignedMembers(ns);
    var a, b := Unsigned(ms), Unsigned(ns);
    forall i, j | 0 <= i < |a| && 0 <= j < |b| && a[i].key == b[j].key
        && !a[i].value.Undefined? && !b[j].value.Undefined?
      ensures Equivalent(a[i].value, b[j].value)
    {
      assert a[i] in ms && b[j] in ns;
      var p :| 0 <= p < |ms| && ms[p] == a[i];
      var q :| 0 <= q < |ns| && ns[q] == b[j];
    }
  }

  lemma EquivalentEnvelopesSignAlike(v: Value, w: Value, le: Order)
    requires Preorder(le) && WellFormed(v) && WellFormed(w) && Equivalent(v, w) && v.Obj?
    requires Separated(Obj(Unsigned(v.members)), le)
    ensures SigningInput(v, le) == SigningInput(w, le)
  {
    UnsignedEquivalent(v.members, w.members);
    UnsignedWellFormed(v.members);
    UnsignedWellFormed(w.members);
    EquivalentPrintAlike(Obj(Unsigned(v.members)), Obj(Unsigned(w.members)), le);
  }

  /** The signing input is the same before a signature is attached, after any signature is attached, and
      on any reordering, at every depth, of the signed envelope. */
  lemma SigningInputIsStable(ms: Members, signature: Value, reread: Value, le: Order)
    requires Preorder(le) && WellFormed(Obj(ms)) && Separated(Obj(Unsigned(ms)), le)
    requires WellFormed(signature) && WellFormed(reread)
    requires Equivalent(Obj(Attach(ms, signature)), reread)
    ensures SigningInput(Obj(Attach(ms, signature)), le) == SigningInput(Obj(ms), le)
    ensures SigningInput(reread, le) == SigningInput(Obj(ms), le)
  {
    AttachIsInvisible(ms, signature);
    AttachWellFormed(ms, signature);
    EquivalentEnvelopesSignAlike(Obj(Attach(ms, signature)), reread, le);
  }

  lemma AttachWellFormed(ms: Members, signature: Value)
    requires WellFormed(Obj(ms)) && WellFormed(signature)
    ensures WellFormed(Obj(Attach(ms, signature)))
  {
    AttachMembers(ms, signature);
    AttachKeepsDistinct(ms, signature);
    forall i | 0 <= i < |Attach(ms, signature)| ensures WellFormed(Attach(ms, signature)[i].value) {
      assert Attach(ms, signature)[i] in Attach(ms, signature);
    }
  }

  // ------------------------------------------------------------------ writing and reading back

  lemma {:induction false} NormalItemsIdempotent(items: seq<Value>, le: Order)
    requires Preorder(le) && forall i | 0 <= i < |items| :: WellFormed(items[i])
    ensures NormalItems(NormalItems(items, le), le) == NormalItems(items, le)
    ensures forall i | 0 <= i < |items| :: WellFormed(NormalItems(items, le)[i])
    decreases ItemsSize(items)
  {
    if items != [] {
      NormalIdempotent(items[0], le);
      NormalItemsIdempotent(items[1..], le);
      assert NormalItems(items, le)[1..] == NormalItems(items[1..], le);
    }
  }

  lemma {:induction false} NormalMembersIdempotent(ms: Members, le: Order)
    requires Preorder(le) && AllWellFormed(ms)
    ensures NormalMembers(NormalMembers(ms, le), le) == NormalMembers(ms, le)
    ensures AllWellFormed(NormalMembers(ms, le))
    decreases MembersSize(ms)
  {
    if ms != [] {
      NormalIdempotent(ms[0].value, le);
      NormalMembersIdempotent(ms[1..], le);
      assert NormalMembers(ms, le)[1..] == NormalMembers(ms[1..], le);
    }
  }

  lemma {:induction false} NormalIdempotent(v: Value, le: Order)
    requires Preorder(le) && WellFormed(v)
    ensures Normal(Normal(v, le), le) == Normal(v, le) && WellFormed(Normal(v, le))
    decreases Size(v)
  {
    match v
    case Arr(items) => NormalItemsIdempotent(items, le);
    case Obj(ms) =>
      OrderedIsSorted(ms, le);
      OrderedWellFormed(ms, le);
      NormalMembersAreOrdered(ms, le);
      NormalMembersIdempotent(Ordered(ms, le), le);
    case _ =>
  }

  /** There is a signing input exactly for an object whose members other than the signature print, and it reads
      back as that object without its signature, with keys sorted and undefined members dropped. */
  lemma SigningInputExactly(v: Value, le: Order)
    requires Preorder(le)
    ensures SigningInput(v, le).Ok? <==> v.Obj? && Printable(Obj(Unsigned(v.members)))
    ensures SigningInput(v, le).Ok? ==> Parse(SigningInput(v, le).value) == Some(Normal(Obj(Unsigned(v.members)), le))
    ensures !v.Obj? ==> SigningInput(v, le) == Err(NotAnObject)
  {
    if v.Obj? {
      CanonicalPrintsExactly(Obj(Unsigned(v.members)), le);
      if SigningInput(v, le).Ok? {
        ParseInvertsCanonical(Obj(Unsigned(v.members)), le);
      }
    }
  }

  /** The comparison that ties all keys. Under it the printer writes members as they come, as JSON.stringify
      does on a value that prints at all. */
  const INSERTION_ORDER: Order := (a: Text, b: Text) => true

  lemma WritesAsInserted(ms: Members)
    ensures Preorder(INSERTION_ORDER) && Ordered(ms, INSERTION_ORDER) == Defined(ms)
  {
    SortedIsFixed(Defined(ms), INSERTION_ORDER);
  }

  /** Writing a signed envelope with its members in any order, as inserted or sorted, and parsing it again
      yields an envelope with the same signing input. */
  lemma SigningInputSurvivesStorage(ms: Members, signature: Value, written: Order, le: Order)
    requires Preorder(written) && Preorder(le) && WellFormed(Obj(ms)) && WellFormed(signature)
    requires Separated(Obj(Unsigned(ms)), le)
    requires Canonical(Obj(Attach(ms, signature)), written).Ok?
    ensures Parse(Canonical(Obj(Attach(ms, signature)), written).value).Some?
    ensures var stored := Parse(Canonical(Obj(Attach(ms, signature)), written).value).value;
      SigningInput(stored, le) == SigningInput(Obj(ms), le)
  {
    var v := Obj(Attach(ms, signature));
    AttachWellFormed(ms, signature);
    ParseInvertsCanonical(v, written);
    NormalIdempotent(v, written);
    OneNormalMeansEquivalent(v, Normal(v, written), written);
    SigningInputIsStable(ms, signature, Normal(v, written), le);
  }

  /** A signing input fixes the whole envelope but its signature, up to key order and undefined members. */
  lemma SigningInputBindsEnvelope(v: Value, w: Value, le: Order)
    requires Preorder(le) && WellFormed(v) && WellFormed(w)
    requires SigningInput(v, le).Ok? && SigningInput(v, le) == SigningInput(w, le)
    ensures Equivalent(Obj(Unsigned(v.members)), Obj(Unsigned(w.members)))
  {
    UnsignedWellFormed(v.members);
    UnsignedWellFormed(w.members);
    EqualTextMeansEquivalent(Obj(Unsigned(v.members)), Obj(Unsigned(w.members)), le);
  }
}
