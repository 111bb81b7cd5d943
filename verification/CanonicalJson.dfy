/** `canonicalJson` and the signing input built from it, with a parser that inverts the printer. */
module CanonicalJson {
  import opened Wrappers
  import opened JsonText
  import opened KeySort

  /** A JavaScript value as the printer sees it. Numbers are integers or not finite; `Opaque` is a
      function, symbol or bigint. The members of an object are in insertion order. */
  datatype Value =
    | Null
    | Bool(b: bool)
    | Num(n: int)
    | NonFinite
    | Str(s: Text)
    | Arr(items: seq<Value>)
    | Obj(members: Members)
    | Undefined
    | Opaque

  type Members = seq<Entry<Value>>

  datatype Error = NonFiniteNumber | UnsupportedType | NotAnObject

  const COMMA: Unit := ',' as int
  const COLON: Unit := ':' as int
  const OPEN_BRACKET: Unit := '[' as int
  const CLOSE_BRACKET: Unit := ']' as int
  const OPEN_BRACE: Unit := '{' as int
  const CLOSE_BRACE: Unit := '}' as int
  const NULL_TEXT: Text := ['n' as int, 'u' as int, 'l' as int, 'l' as int]
  const TRUE_TEXT: Text := ['t' as int, 'r' as int, 'u' as int, 'e' as int]
  const FALSE_TEXT: Text := ['f' as int, 'a' as int, 'l' as int, 's' as int, 'e' as int]

  // ------------------------------------------------------------------ a measure for the recursion

  function Size(v: Value): nat {
    match v
    case Arr(items) => 1 + ItemsSize(items)
    case Obj(members) => 1 + MembersSize(members)
    case _ => 1
  }

  function ItemsSize(items: seq<Value>): nat {
    if items == [] then 0 else 1 + Size(items[0]) + ItemsSize(items[1..])
  }

  function MembersSize(ms: Members): nat {
    if ms == [] then 0 else 1 + Size(ms[0].value) + MembersSize(ms[1..])
  }

  /** The members whose value is not undefined. */
  function Defined(ms: Members): Members {
    if ms == [] then []
    else if ms[0].value.Undefined? then Defined(ms[1..])
    else [ms[0]] + Defined(ms[1..])
  }

  lemma {:induction false} DefinedSize(ms: Members)
    ensures MembersSize(Defined(ms)) <= MembersSize(ms)
  {
    if ms != [] {
      DefinedSize(ms[1..]);
      if !ms[0].value.Undefined? {
        assert Defined(ms)[1..] == Defined(ms[1..]);
      }
    }
  }

  lemma {:induction false} InsertSize(e: Entry<Value>, ms: Members, le: Order)
    ensures MembersSize(Insert(e, ms, le)) == 1 + Size(e.value) + MembersSize(ms)
  {
    if ms == [] {
      assert [e][1..] == [];
    } else if le(e.key, ms[0].key) {
      assert ([e] + ms)[1..] == ms;
    } else {
      InsertSize(e, ms[1..], le);
      assert Insert(e, ms, le)[1..] == Insert(e, ms[1..], le);
    }
  }

  lemma {:induction false} SortSize(ms: Members, le: Order)
    ensures MembersSize(Sort(ms, le)) == MembersSize(ms)
  {
    if ms != [] {
      SortSize(ms[1..], le);
      InsertSize(ms[0], Sort(ms[1..], le), le);
    }
  }

  /** The members that are printed, in printing order. */
  function Ordered(ms: Members, le: Order): (r: Members)
    ensures MembersSize(r) <= MembersSize(ms)
  {
    DefinedSize(ms);
    SortSize(Defined(ms), le);
    Sort(Defined(ms), le)
  }

  // ------------------------------------------------------------------ the printer

  function Canonical(v: Value, le: Order): Result<Text, Error>
    decreases Size(v)
  {
    match v
    case Null => Ok(NULL_TEXT)
    case Bool(b) => Ok(if b then TRUE_TEXT else FALSE_TEXT)
    case Num(n) => Ok(PrintInt(n))
    case NonFinite => Err(NonFiniteNumber)
    case Str(s) => Ok(Quote(s))
    case Arr(items) =>
      (match PrintItems(items, le)
       case Err(e) => Err(e)
       case Ok(t) => Ok([OPEN_BRACKET] + t + [CLOSE_BRACKET]))
    case Obj(members) =>
      (match PrintMembers(Ordered(members, le), le)
       case Err(e) => Err(e)
       case Ok(t) => Ok([OPEN_BRACE] + t + [CLOSE_BRACE]))
    case Undefined => Err(UnsupportedType)
    case Opaque => Err(UnsupportedType)
  }

  function PrintItems(items: seq<Value>, le: Order): Result<Text, Error>
    decreases ItemsSize(items)
  {
    if items == [] then Ok([])
    else match Canonical(items[0], le)
      case Err(e) => Err(e)
      case Ok(t) =>
        if |items| == 1 then Ok(t)
        else match PrintItems(items[1..], le) case Err(e) => Err(e) case Ok(ts) => Ok(t + [COMMA] + ts)
  }

  function PrintMembers(ms: Members, le: Order): Result<Text, Error>
    decreases MembersSize(ms)
  {
    if ms == [] then Ok([])
    else match Canonical(ms[0].value, le)
      case Err(e) => Err(e)
      case Ok(t) =>
        var m := Quote(ms[0].key) + [COLON] + t;
        if |ms| == 1 then Ok(m)
        else match PrintMembers(ms[1..], le) case Err(e) => Err(e) case Ok(ts) => Ok(m + [COMMA] + ts)
  }

  // ------------------------------------------------------------------ the parser

  function ReadLiteral(t: Text, literal: Text, v: Value): (r: Option<Parsed<Value>>)
    requires literal != []
    ensures r.Some? ==> |r.value.rest| < |t|
  {
    if literal <= t then Some(Parsed(v, t[|literal|..])) else None
  }

  function ReadString(t: Text): (r: Option<Parsed<Text>>)
    ensures r.Some? ==> |r.value.rest| < |t|
  {
    if t != [] && t[0] == QUOTE then ReadChars(t[1..]) else None
  }

  function ReadValue(t: Text): (r: Option<Parsed<Value>>)
    ensures r.Some? ==> |r.value.rest| < |t|
    decreases |t|, 1
  {
    if t == [] then None
    else if t[0] == QUOTE then
      (match ReadString(t) case None => None case Some(p) => Some(Parsed(Str(p.value), p.rest)))
    else if t[0] == OPEN_BRACKET then
      if |t| > 1 && t[1] == CLOSE_BRACKET then Some(Parsed(Arr([]), t[2..]))
      else (match ReadItems(t[1..]) case None => None case Some(p) => Some(Parsed(Arr(p.value), p.rest)))
    else if t[0] == OPEN_BRACE then
      if |t| > 1 && t[1] == CLOSE_BRACE then Some(Parsed(Obj([]), t[2..]))
      else (match ReadMembers(t[1..]) case None => None case Some(p) => Some(Parsed(Obj(p.value), p.rest)))
    else if t[0] == NULL_TEXT[0] then ReadLiteral(t, NULL_TEXT, Null)
    else if t[0] == TRUE_TEXT[0] then ReadLiteral(t, TRUE_TEXT, Bool(true))
    else if t[0] == FALSE_TEXT[0] then ReadLiteral(t, FALSE_TEXT, Bool(false))
    else
      match ReadInt(t) case None => None case Some(p) => Some(Parsed(Num(p.value), p.rest))
  }

  /** One or more items and the closing bracket. */
  function ReadItems(t: Text): (r: Option<Parsed<seq<Value>>>)
    ensures r.Some? ==> |r.value.rest| < |t|
    decreases |t|, 2
  {
    match ReadValue(t)
    case None => None
    case Some(p) =>
      if p.rest == [] then None
      else if p.rest[0] == CLOSE_BRACKET then Some(Parsed([p.value], p.rest[1..]))
      else if p.rest[0] != COMMA then None
      else match ReadItems(p.rest[1..])
        case None => None
        case Some(q) => Some(Parsed([p.value] + q.value, q.rest))
  }

  function ReadMember(t: Text): (r: Option<Parsed<Entry<Value>>>)
    ensures r.Some? ==> |r.value.rest| < |t|
    decreases |t|, 0
  {
    match ReadString(t)
    case None => None
    case Some(k) =>
      if k.rest == [] || k.rest[0] != COLON then None
      else match ReadValue(k.rest[1..])
        case None => None
        case Some(p) => Some(Parsed(Entry(k.value, p.value), p.rest))
  }

  /** One or more members and the closing brace. */
  function ReadMembers(t: Text): (r: Option<Parsed<Members>>)
    ensures r.Some? ==> |r.value.rest| < |t|
    decreases |t|, 2
  {
    match ReadMember(t)
    case None => None
    case Some(p) =>
      if p.rest == [] then None
      else if p.rest[0] == CLOSE_BRACE then Some(Parsed([p.value], p.rest[1..]))
      else if p.rest[0] != COMMA then None
      else match ReadMembers(p.rest[1..])
        case None => None
        case Some(q) => Some(Parsed([p.value] + q.value, q.rest))
  }

  /** A parser for whole texts. */
  function Parse(t: Text): Option<Value> {
    match ReadValue(t)
    case Some(Parsed(v, rest)) => if rest == [] then Some(v) else None
    case None => None
  }

  // ------------------------------------------------------------------ normal forms

  /** Keys sorted and undefined members dropped, throughout. */
  function Normal(v: Value, le: Order): Value
    decreases Size(v)
  {
    match v
    case Arr(items) => Arr(NormalItems(items, le))
    case Obj(members) => Obj(NormalMembers(Ordered(members, le), le))
    case _ => v
  }

  function NormalItems(items: seq<Value>, le: Order): (r: seq<Value>)
    ensures |r| == |items|
    decreases ItemsSize(items)
  {
    if items == [] then [] else [Normal(items[0], le)] + NormalItems(items[1..], le)
  }

  function NormalMembers(ms: Members, le: Order): (r: Members)
    ensures |r| == |ms| && forall i | 0 <= i < |ms| :: r[i].key == ms[i].key
    decreases MembersSize(ms)
  {
    if ms == [] then [] else [Entry(ms[0].key, Normal(ms[0].value, le))] + NormalMembers(ms[1..], le)
  }

  // ------------------------------------------------------------------ the parser inverts the printer

  predicate NoDigitFollows(tail: Text) {
    tail == [] || !IsDigit(tail[0])
  }

  ghost predicate ValueReads(t: Text, v: Value, tail: Text) {
    ReadValue(t) == Some(Parsed(v, tail))
  }

  ghost predicate ItemsRead(t: Text, items: seq<Value>, tail: Text) {
    ReadItems(t) == Some(Parsed(items, tail))
  }

  ghost predicate MembersRead(t: Text, ms: Members, tail: Text) {
    ReadMembers(t) == Some(Parsed(ms, tail))
  }

  lemma LiteralReads(literal: Text, v: Value, tail: Text)
    requires literal != []
    ensures ReadLiteral(literal + tail, literal, v) == Some(Parsed(v, tail))
  {
    assert (literal + tail)[|literal|..] == tail;
  }

  lemma ConstantReads(v: Value, le: Order, tail: Text)
    requires v.Null? || v.Bool?
    ensures ValueReads(Canonical(v, le).value + tail, v, tail)
  {
    var literal := Canonical(v, le).value;
    assert (literal + tail)[0] == literal[0];
    LiteralReads(literal, v, tail);
  }

  lemma NumberReads(n: int, tail: Text)
    requires NoDigitFollows(tail)
    ensures ValueReads(PrintInt(n) + tail, Num(n), tail)
  {
    IntRoundTrip(n, tail);
    var t := PrintInt(n) + tail;
    assert t[0] == PrintInt(n)[0];
    assert t[0] == MINUS || IsDigit(t[0]);
  }

  lemma StringReads(s: Text, tail: Text)
    ensures ReadString(Quote(s) + tail) == Some(Parsed(s, tail))
    ensures ValueReads(Quote(s) + tail, Str(s), tail)
  {
    QuoteRoundTrip(s, tail);
  }

  /** A printed value starts with none of the characters that end a list. */
  lemma FirstUnit(v: Value, le: Order)
    requires Canonical(v, le).Ok?
    ensures Canonical(v, le).value != [] && Canonical(v, le).value[0] !in {CLOSE_BRACKET, CLOSE_BRACE}
  {
    if v.Num? {
      assert v.n < 0 || IsDigit(Digits(v.n)[0]);
    }
  }

  lemma ArrayReads(body: Text, items: seq<Value>, tail: Text)
    requires body != [] && body[0] != CLOSE_BRACKET && ItemsRead(body + ([CLOSE_BRACKET] + tail), items, tail)
    ensures ValueReads([OPEN_BRACKET] + body + [CLOSE_BRACKET] + tail, Arr(items), tail)
  {
    var rest := body + ([CLOSE_BRACKET] + tail);
    assert [OPEN_BRACKET] + body + [CLOSE_BRACKET] + tail == [OPEN_BRACKET] + rest;
    assert ([OPEN_BRACKET] + rest)[1..] == rest && ([OPEN_BRACKET] + rest)[1] == body[0];
  }

  lemma ObjectReads(body: Text, ms: Members, tail: Text)
    requires body != [] && body[0] != CLOSE_BRACE && MembersRead(body + ([CLOSE_BRACE] + tail), ms, tail)
    ensures ValueReads([OPEN_BRACE] + body + [CLOSE_BRACE] + tail, Obj(ms), tail)
  {
    var rest := body + ([CLOSE_BRACE] + tail);
    assert [OPEN_BRACE] + body + [CLOSE_BRACE] + tail == [OPEN_BRACE] + rest;
    assert ([OPEN_BRACE] + rest)[1..] == rest && ([OPEN_BRACE] + rest)[1] == body[0];
  }

  lemma EmptyReads(tail: Text)
    ensures ValueReads([OPEN_BRACKET] + [] + [CLOSE_BRACKET] + tail, Arr([]), tail)
    ensures ValueReads([OPEN_BRACE] + [] + [CLOSE_BRACE] + tail, Obj([]), tail)
  {
    var a, o := [OPEN_BRACKET] + [] + [CLOSE_BRACKET] + tail, [OPEN_BRACE] + [] + [CLOSE_BRACE] + tail;
    assert a[1] == CLOSE_BRACKET && a[2..] == tail && o[1] == CLOSE_BRACE && o[2..] == tail;
  }

  lemma LastItemReads(t: Text, v: Value, tail: Text)
    requires ValueReads(t + ([CLOSE_BRACKET] + tail), v, [CLOSE_BRACKET] + tail)
    ensures ItemsRead(t + ([CLOSE_BRACKET] + tail), [v], tail)
  {
    assert ([CLOSE_BRACKET] + tail)[1..] == tail;
  }

  lemma NextItemReads(t: Text, v: Value, more: Text, vs: seq<Value>, tail: Text)
    requires ValueReads(t + ([COMMA] + more), v, [COMMA] + more) && ItemsRead(more, vs, tail)
    ensures ItemsRead(t + ([COMMA] + more), [v] + vs, tail)
  {
    assert ([COMMA] + more)[1..] == more;
  }

  lemma MemberReads(k: Text, t: Text, v: Value, tail: Text)
    requires ValueReads(t + tail, v, tail)
    ensures ReadMember(Quote(k) + [COLON] + t + tail) == Some(Parsed(Entry(k, v), tail))
  {
    var value := t + tail;
    var rest := [COLON] + value;
    Assoc(Quote(k) + [COLON], t, tail);
    Assoc(Quote(k), [COLON], value);
    StringReads(k, rest);
    assert rest[0] == COLON && rest[1..] == value;
  }

  lemma LastMemberReads(t: Text, e: Entry<Value>, tail: Text)
    requires ReadMember(t + ([CLOSE_BRACE] + tail)) == Some(Parsed(e, [CLOSE_BRACE] + tail))
    ensures MembersRead(t + ([CLOSE_BRACE] + tail), [e], tail)
  {
    assert ([CLOSE_BRACE] + tail)[1..] == tail;
  }

  lemma NextMemberReads(t: Text, e: Entry<Value>, more: Text, es: Members, tail: Text)
    requires ReadMember(t + ([COMMA] + more)) == Some(Parsed(e, [COMMA] + more)) && MembersRead(more, es, tail)
    ensures MembersRead(t + ([COMMA] + more), [e] + es, tail)
  {
    assert ([COMMA] + more)[1..] == more;
  }

  lemma ArrayValueReads(items: seq<Value>, le: Order, tail: Text)
    requires items != [] && Canonical(Arr(items), le).Ok?
    requires ItemsRead(PrintItems(items, le).value + ([CLOSE_BRACKET] + tail), NormalItems(items, le), tail)
    ensures ValueReads(Canonical(Arr(items), le).value + tail, Normal(Arr(items), le), tail)
  {
    FirstUnit(items[0], le);
    ArrayReads(PrintItems(items, le).value, NormalItems(items, le), tail);
  }

  lemma ObjectValueReads(members: Members, le: Order, tail: Text)
    requires Ordered(members, le) != [] && Canonical(Obj(members), le).Ok?
    requires var ms := Ordered(members, le);
      && PrintMembers(ms, le).Ok?
      && MembersRead(PrintMembers(ms, le).value + ([CLOSE_BRACE] + tail), NormalMembers(ms, le), tail)
    ensures ValueReads(Canonical(Obj(members), le).value + tail, Normal(Obj(members), le), tail)
  {
    var ms := Ordered(members, le);
    assert PrintMembers(ms, le).value[0] == QUOTE;
    ObjectReads(PrintMembers(ms, le).value, NormalMembers(ms, le), tail);
  }

  lemma {:induction false} CanonicalReads(v: Value, le: Order, tail: Text)
    requires Canonical(v, le).Ok? && NoDigitFollows(tail)
    ensures ValueReads(Canonical(v, le).value + tail, Normal(v, le), tail)
    decreases Size(v)
  {
    match v
    case Num(n) => NumberReads(n, tail);
    case Str(s) => StringReads(s, tail);
    case Arr(items) =>
      if items == [] {
        EmptyReads(tail);
      } else {
        ItemsCanonicalRead(items, le, tail);
        ArrayValueReads(items, le, tail);
      }
    case Obj(members) =>
      if Ordered(members, le) == [] {
        EmptyReads(tail);
      } else {
        MembersCanonicalRead(Ordered(members, le), le, tail);
        ObjectValueReads(members, le, tail);
      }
    case _ => ConstantReads(v, le, tail);
  }

  lemma Regroup(t: Text, ts: Text, rest: Text)
    ensures t + [COMMA] + ts + rest == t + ([COMMA] + (ts + rest))
  {
  }

  lemma ItemsSplit(items: seq<Value>, le: Order)
    requires |items| > 1 && PrintItems(items, le).Ok?
    ensures Canonical(items[0], le).Ok? && PrintItems(items[1..], le).Ok?
    ensures PrintItems(items, le).value == Canonical(items[0], le).value + [COMMA] + PrintItems(items[1..], le).value
    ensures NormalItems(items, le) == [Normal(items[0], le)] + NormalItems(items[1..], le)
  {
  }

  lemma ItemsStep(items: seq<Value>, le: Order, tail: Text, t: Text, v: Value, ts: Text, vs: seq<Value>)
    requires |items| > 1 && PrintItems(items, le).Ok?
    requires t == Canonical(items[0], le).value && v == Normal(items[0], le)
    requires ts == PrintItems(items[1..], le).value && vs == NormalItems(items[1..], le)
    requires var more := ts + ([CLOSE_BRACKET] + tail);
      ValueReads(t + ([COMMA] + more), v, [COMMA] + more) && ItemsRead(more, vs, tail)
    ensures ItemsRead(PrintItems(items, le).value + ([CLOSE_BRACKET] + tail), NormalItems(items, le), tail)
  {
    ItemsSplit(items, le);
    Regroup(t, ts, [CLOSE_BRACKET] + tail);
    NextItemReads(t, v, ts + ([CLOSE_BRACKET] + tail), vs, tail);
  }

  lemma {:induction false} ItemsCanonicalRead(items: seq<Value>, le: Order, tail: Text)
    requires items != [] && PrintItems(items, le).Ok?
    ensures ItemsRead(PrintItems(items, le).value + ([CLOSE_BRACKET] + tail), NormalItems(items, le), tail)
    decreases ItemsSize(items)
  {
    if |items| == 1 {
      CanonicalReads(items[0], le, [CLOSE_BRACKET] + tail);
      LastItemReads(Canonical(items[0], le).value, Normal(items[0], le), tail);
      assert NormalItems(items, le) == [Normal(items[0], le)];
    } else {
      var more := PrintItems(items[1..], le).value + ([CLOSE_BRACKET] + tail);
      CanonicalReads(items[0], le, [COMMA] + more);
      ItemsCanonicalRead(items[1..], le, tail);
      ItemsStep(items, le, tail, Canonical(items[0], le).value, Normal(items[0], le),
                PrintItems(items[1..], le).value, NormalItems(items[1..], le));
    }
  }

  lemma MembersSplit(ms: Members, le: Order)
    requires |ms| > 1 && PrintMembers(ms, le).Ok?
    ensures Canonical(ms[0].value, le).Ok? && PrintMembers(ms[1..], le).Ok?
    ensures PrintMembers(ms, le).value ==
      (Quote(ms[0].key) + [COLON] + Canonical(ms[0].value, le).value) + [COMMA] + PrintMembers(ms[1..], le).value
    ensures NormalMembers(ms, le) == [Entry(ms[0].key, Normal(ms[0].value, le))] + NormalMembers(ms[1..], le)
  {
  }

  lemma MembersStep(ms: Members, le: Order, tail: Text, m: Text, e: Entry<Value>, ts: Text, es: Members)
    requires |ms| > 1 && PrintMembers(ms, le).Ok?
    requires m == Quote(ms[0].key) + [COLON] + Canonical(ms[0].value, le).value
    requires e == Entry(ms[0].key, Normal(ms[0].value, le))
    requires ts == PrintMembers(ms[1..], le).value && es == NormalMembers(ms[1..], le)
    requires var more := ts + ([CLOSE_BRACE] + tail);
      ReadMember(m + ([COMMA] + more)) == Some(Parsed(e, [COMMA] + more)) && MembersRead(more, es, tail)
    ensures MembersRead(PrintMembers(ms, le).value + ([CLOSE_BRACE] + tail), NormalMembers(ms, le), tail)
  {
    MembersSplit(ms, le);
    Regroup(m, ts, [CLOSE_BRACE] + tail);
    NextMemberReads(m, e, ts + ([CLOSE_BRACE] + tail), es, tail);
  }

  lemma {:induction false} MembersCanonicalRead(ms: Members, le: Order, tail: Text)
    requires ms != [] && PrintMembers(ms, le).Ok?
    ensures MembersRead(PrintMembers(ms, le).value + ([CLOSE_BRACE] + tail), NormalMembers(ms, le), tail)
    decreases MembersSize(ms)
  {
    var t, e := Canonical(ms[0].value, le).value, Entry(ms[0].key, Normal(ms[0].value, le));
    var m := Quote(ms[0].key) + [COLON] + t;
    if |ms| == 1 {
      CanonicalReads(ms[0].value, le, [CLOSE_BRACE] + tail);
      MemberReads(ms[0].key, t, e.value, [CLOSE_BRACE] + tail);
      LastMemberReads(m, e, tail);
      assert NormalMembers(ms, le) == [e];
    } else {
      var more := PrintMembers(ms[1..], le).value + ([CLOSE_BRACE] + tail);
      CanonicalReads(ms[0].value, le, [COMMA] + more);
      MemberReads(ms[0].key, t, e.value, [COMMA] + more);
      MembersCanonicalRead(ms[1..], le, tail);
      MembersStep(ms, le, tail, m, e, PrintMembers(ms[1..], le).value, NormalMembers(ms[1..], le));
    }
  }

  /** The parser returns the printed value with its keys sorted and undefined members dropped. */
  lemma ParseInvertsCanonical(v: Value, le: Order)
    requires Canonical(v, le).Ok?
    ensures Parse(Canonical(v, le).value) == Some(Normal(v, le))
  {
    CanonicalReads(v, le, []);
    assert Canonical(v, le).value + [] == Canonical(v, le).value;
  }

  // ------------------------------------------------------------------ what the text of a value is

  function Joined(parts: seq<Text>): Text {
    if parts == [] then []
    else if |parts| == 1 then parts[0]
    else parts[0] + [COMMA] + Joined(parts[1..])
  }

  function ItemTexts(items: seq<Value>, le: Order): (parts: seq<Text>)
    requires forall v <- items :: Canonical(v, le).Ok?
    ensures |parts| == |items| && forall i | 0 <= i < |items| :: parts[i] == Canonical(items[i], le).value
  {
    seq(|items|, i requires 0 <= i < |items| => assert items[i] in items; Canonical(items[i], le).value)
  }

  function MemberTexts(ms: Members, le: Order): (parts: seq<Text>)
    requires forall e <- ms :: Canonical(e.value, le).Ok?
    ensures |parts| == |ms|
    ensures forall i | 0 <= i < |ms| :: parts[i] == Quote(ms[i].key) + [COLON] + Canonical(ms[i].value, le).value
  {
    seq(|ms|, i requires 0 <= i < |ms| =>
      assert ms[i] in ms; Quote(ms[i].key) + [COLON] + Canonical(ms[i].value, le).value)
  }

  lemma {:induction false} ItemsJoined(items: seq<Value>, le: Order)
    requires forall v <- items :: Canonical(v, le).Ok?
    ensures PrintItems(items, le) == Ok(Joined(ItemTexts(items, le)))
  {
    if items != [] {
      assert items[0] in items && forall v <- items[1..] :: v in items;
      ItemsJoined(items[1..], le);
      assert ItemTexts(items, le)[1..] == ItemTexts(items[1..], le);
    }
  }

  lemma {:induction false} MembersJoined(ms: Members, le: Order)
    requires forall e <- ms :: Canonical(e.value, le).Ok?
    ensures PrintMembers(ms, le) == Ok(Joined(MemberTexts(ms, le)))
  {
    if ms != [] {
      assert ms[0] in ms && forall e <- ms[1..] :: e in ms;
      MembersJoined(ms[1..], le);
      assert MemberTexts(ms, le)[1..] == MemberTexts(ms[1..], le);
    }
  }

  /** The text of every value, apart from any parser: literals, the one decimal spelling of an integer, strings
      spelled unit by unit, and the texts of the parts joined by commas, an object's in key order. */
  lemma TextOfValue(le: Order, n: int, s: Text)
    ensures Canonical(Null, le) == Ok(['n' as int, 'u' as int, 'l' as int, 'l' as int])
    ensures Canonical(Bool(true), le) == Ok(['t' as int, 'r' as int, 'u' as int, 'e' as int])
    ensures Canonical(Bool(false), le) == Ok(['f' as int, 'a' as int, 'l' as int, 's' as int, 'e' as int])
    ensures Canonical(Num(n), le) == Ok(PrintInt(n)) && IsIntText(PrintInt(n))
    ensures Canonical(Str(s), le) == Ok([QUOTE] + Spelled(s, 0) + [QUOTE])
  {
    PrintedExactly(n, PrintInt(n));
    QuoteSpells(s);
  }

  lemma TextOfArray(items: seq<Value>, le: Order)
    requires forall v <- items :: Canonical(v, le).Ok?
    ensures Canonical(Arr(items), le) == Ok([OPEN_BRACKET] + Joined(ItemTexts(items, le)) + [CLOSE_BRACKET])
  {
    ItemsJoined(items, le);
  }

  lemma TextOfObject(ms: Members, le: Order)
    requires forall e <- Ordered(ms, le) :: Canonical(e.value, le).Ok?
    ensures Canonical(Obj(ms), le) == Ok([OPEN_BRACE] + Joined(MemberTexts(Ordered(ms, le), le)) + [CLOSE_BRACE])
  {
    MembersJoined(Ordered(ms, le), le);
  }

  // ------------------------------------------------------------------ which values print

  /** No non-finite number, no function or symbol, and undefined only as the value of a member. */
  ghost predicate Printable(v: Value)
    decreases v
  {
    match v
    case NonFinite => false
    case Undefined => false
    case Opaque => false
    case Arr(items) => forall i | 0 <= i < |items| :: Printable(items[i])
    case Obj(ms) => forall i | 0 <= i < |ms| :: ms[i].value.Undefined? || Printable(ms[i].value)
    case _ => true
  }

  lemma {:induction false} ItemSize(items: seq<Value>, i: nat)
    requires i < |items|
    ensures Size(items[i]) < ItemsSize(items)
  {
    if i > 0 {
      ItemSize(items[1..], i - 1);
    }
  }

  lemma {:induction false} MemberSize(ms: Members, i: nat)
    requires i < |ms|
    ensures Size(ms[i].value) < MembersSize(ms)
  {
    if i > 0 {
      MemberSize(ms[1..], i - 1);
    }
  }

  lemma {:induction false} DefinedMembers(ms: Members)
    ensures forall e :: e in Defined(ms) <==> e in ms && !e.value.Undefined?
  {
    if ms != [] {
      DefinedMembers(ms[1..]);
      assert ms == [ms[0]] + ms[1..];
    }
  }

  lemma OrderedMembers(ms: Members, le: Order)
    ensures forall e :: e in Ordered(ms, le) <==> e in ms && !e.value.Undefined?
  {
    DefinedMembers(ms);
    forall e: Entry<Value> ensures e in Ordered(ms, le) <==> e in Defined(ms) {
      SortMember(Defined(ms), le, e);
    }
  }

  lemma {:induction false} ItemsPrintExactly(items: seq<Value>, le: Order)
    ensures PrintItems(items, le).Ok? <==> forall i | 0 <= i < |items| :: Printable(items[i])
    decreases ItemsSize(items)
  {
    if items != [] {
      CanonicalPrintsExactly(items[0], le);
      ItemsPrintExactly(items[1..], le);
      if PrintItems(items, le).Ok? {
        forall i | 0 <= i < |items| ensures Printable(items[i]) {
          assert i > 0 ==> items[i] == items[1..][i - 1];
        }
      }
      if forall i | 0 <= i < |items| :: Printable(items[i]) {
        assert forall i | 0 <= i < |items[1..]| :: items[1..][i] == items[i + 1];
      }
    }
  }

  lemma {:induction false} MembersPrintExactly(ms: Members, le: Order)
    ensures PrintMembers(ms, le).Ok? <==> forall i | 0 <= i < |ms| :: Printable(ms[i].value)
    decreases MembersSize(ms)
  {
    if ms != [] {
      CanonicalPrintsExactly(ms[0].value, le);
      MembersPrintExactly(ms[1..], le);
      if PrintMembers(ms, le).Ok? {
        forall i | 0 <= i < |ms| ensures Printable(ms[i].value) {
          assert i > 0 ==> ms[i] == ms[1..][i - 1];
        }
      }
      if forall i | 0 <= i < |ms| :: Printable(ms[i].value) {
        assert forall i | 0 <= i < |ms[1..]| :: ms[1..][i] == ms[i + 1];
      }
    }
  }

  /** The printer throws exactly on values that are not printable. */
  lemma {:induction false} CanonicalPrintsExactly(v: Value, le: Order)
    ensures Canonical(v, le).Ok? <==> Printable(v)
    decreases Size(v)
  {
    match v
    case Arr(items) => ItemsPrintExactly(items, le);
    case Obj(ms) =>
      var es := Ordered(ms, le);
      MembersPrintExactly(es, le);
      OrderedMembers(ms, le);
      if Printable(v) {
        forall i | 0 <= i < |es| ensures Printable(es[i].value) {
          assert es[i] in ms;
        }
      }
      if forall i | 0 <= i < |es| :: Printable(es[i].value) {
        forall i | 0 <= i < |ms| ensures ms[i].value.Undefined? || Printable(ms[i].value) {
          if !ms[i].value.Undefined? {
            assert ms[i] in es;
          }
        }
      }
    case _ =>
  }

  // ------------------------------------------------------------------ equality up to key order

  /** Every object has distinct keys, as JavaScript objects do. */
  ghost predicate WellFormed(v: Value)
    decreases v
  {
    match v
    case Arr(items) => forall i | 0 <= i < |items| :: WellFormed(items[i])
    case Obj(ms) => DistinctKeys(ms) && forall i | 0 <= i < |ms| :: WellFormed(ms[i].value)
    case _ => true
  }

  /** Equal up to the order of object members and members that are undefined. */
  ghost predicate Equivalent(v: Value, w: Value)
    decreases v
  {
    match v
    case Arr(items) =>
      && w.Arr? && |items| == |w.items|
      && forall i | 0 <= i < |items| :: Equivalent(items[i], w.items[i])
    case Obj(ms) =>
      && w.Obj?
      && (forall k: Text :: HasKey(Defined(ms), k) <==> HasKey(Defined(w.members), k))
      && forall i, j | 0 <= i < |ms| && 0 <= j < |w.members| && ms[i].key == w.members[j].key
           && !ms[i].value.Undefined? && !w.members[j].value.Undefined? ::
           Equivalent(ms[i].value, w.members[j].value)
    case _ => v == w
  }

  lemma {:induction false} DefinedKeepsDistinct(ms: Members)
    requires DistinctKeys(ms)
    ensures DistinctKeys(Defined(ms))
  {
    if ms != [] {
      DefinedKeepsDistinct(ms[1..]);
      DefinedMembers(ms[1..]);
      var rest := Defined(ms[1..]);
      if !ms[0].value.Undefined? {
        forall j | 0 <= j < |rest| ensures rest[j].key != ms[0].key {
          assert rest[j] in ms[1..];
        }
      }
    }
  }

  /** What the printing order is: the defined members, sorted, each key once. */
  lemma OrderedIsSorted(ms: Members, le: Order)
    requires Preorder(le) && DistinctKeys(ms)
    ensures Sorted(Ordered(ms, le), le) && DistinctKeys(Ordered(ms, le))
    ensures forall k: Text :: HasKey(Ordered(ms, le), k) <==> HasKey(Defined(ms), k)
  {
    DefinedKeepsDistinct(ms);
    SortSorts(Defined(ms), le);
    SortKeepsDistinct(Defined(ms), le);
    SortMembers(Defined(ms), le);
  }

  ghost predicate AllWellFormed(ms: Members) {
    forall i | 0 <= i < |ms| :: WellFormed(ms[i].value)
  }

  /** At every depth, the printed keys of an object are told apart by the comparison. */
  ghost predicate Separated(v: Value, le: Order)
    decreases v
  {
    match v
    case Arr(items) => forall i | 0 <= i < |items| :: Separated(items[i], le)
    case Obj(ms) => NoTies(Defined(ms), le) && forall i | 0 <= i < |ms| :: Separated(ms[i].value, le)
    case _ => true
  }

  ghost predicate AllSeparated(ms: Members, le: Order) {
    forall i | 0 <= i < |ms| :: Separated(ms[i].value, le)
  }

  lemma OrderedWellFormed(ms: Members, le: Order)
    requires AllWellFormed(ms)
    ensures AllWellFormed(Ordered(ms, le))
    ensures AllSeparated(ms, le) ==> AllSeparated(Ordered(ms, le), le)
  {
    OrderedMembers(ms, le);
    forall i | 0 <= i < |Ordered(ms, le)|
      ensures exists j :: 0 <= j < |ms| && ms[j] == Ordered(ms, le)[i]
    {
      assert Ordered(ms, le)[i] in ms;
    }
  }

  /** Sorting neither makes nor breaks ties. */
  lemma OrderedTies(ms: Members, le: Order)
    requires Preorder(le) && DistinctKeys(ms)
    ensures NoTies(Ordered(ms, le), le) <==> NoTies(Defined(ms), le)
  {
    var es, ds := Ordered(ms, le), Defined(ms);
    OrderedIsSorted(ms, le);
    DefinedKeepsDistinct(ms);
    TiesByKey(es, ds, le);
    TiesByKey(ds, es, le);
  }

  lemma TiesByKey(es: Members, ds: Members, le: Order)
    requires DistinctKeys(es) && DistinctKeys(ds) && (forall k: Text :: HasKey(es, k) ==> HasKey(ds, k))
    ensures NoTies(ds, le) ==> NoTies(es, le)
  {
    if NoTies(ds, le) {
      forall i, j | 0 <= i < j < |es| ensures !Tied(es[i].key, es[j].key, le) {
        assert HasKey(es, es[i].key) && HasKey(es, es[j].key);
        var p :| 0 <= p < |ds| && ds[p].key == es[i].key;
        var q :| 0 <= q < |ds| && ds[q].key == es[j].key;
        assert p != q;
      }
    }
  }

  // -- equivalent values have one normal form, when no keys tie

  lemma {:induction false} EquivalentItems(a: seq<Value>, b: seq<Value>, le: Order)
    requires Preorder(le) && |a| == |b|
    requires forall i | 0 <= i < |a| ::
      WellFormed(a[i]) && Separated(a[i], le) && WellFormed(b[i]) && Equivalent(a[i], b[i])
    ensures NormalItems(a, le) == NormalItems(b, le)
    decreases ItemsSize(a)
  {
    if a != [] {
      EquivalentHaveOneNormal(a[0], b[0], le);
      EquivalentItems(a[1..], b[1..], le);
    }
  }

  lemma {:induction false} EquivalentMembers(es: Members, fs: Members, le: Order)
    requires Preorder(le) && |es| == |fs| && AllWellFormed(es) && AllSeparated(es, le) && AllWellFormed(fs)
    requires forall i | 0 <= i < |es| :: es[i].key == fs[i].key && Equivalent(es[i].value, fs[i].value)
    ensures NormalMembers(es, le) == NormalMembers(fs, le)
    decreases MembersSize(es)
  {
    if es != [] {
      EquivalentHaveOneNormal(es[0].value, fs[0].value, le);
      EquivalentMembers(es[1..], fs[1..], le);
    }
  }

  lemma EquivalentOrdered(ms: Members, ns: Members, le: Order)
    requires Preorder(le) && DistinctKeys(ms) && DistinctKeys(ns) && NoTies(Defined(ms), le)
    requires Equivalent(Obj(ms), Obj(ns))
    ensures |Ordered(ms, le)| == |Ordered(ns, le)|
    ensures forall i | 0 <= i < |Ordered(ms, le)| ::
      Ordered(ms, le)[i].key == Ordered(ns, le)[i].key && Equivalent(Ordered(ms, le)[i].value, Ordered(ns, le)[i].value)
  {
    var es, fs := Ordered(ms, le), Ordered(ns, le);
    OrderedIsSorted(ms, le);
    OrderedIsSorted(ns, le);
    OrderedTies(ms, le);
    SortedKeysAgree(es, fs, le);
    OrderedMembers(ms, le);
    OrderedMembers(ns, le);
    forall i | 0 <= i < |es| ensures es[i].key == fs[i].key && Equivalent(es[i].value, fs[i].value) {
      assert es[i] in ms && fs[i] in ns;
      var p :| 0 <= p < |ms| && ms[p] == es[i];
      var q :| 0 <= q < |ns| && ns[q] == fs[i];
    }
  }

  lemma {:induction false} EquivalentHaveOneNormal(v: Value, w: Value, le: Order)
    requires Preorder(le) && WellFormed(v) && Separated(v, le) && WellFormed(w) && Equivalent(v, w)
    ensures Normal(v, le) == Normal(w, le)
    decreases Size(v)
  {
    match v
    case Arr(items) => EquivalentItems(items, w.items, le);
    case Obj(ms) =>
      EquivalentOrdered(ms, w.members, le);
      OrderedWellFormed(ms, le);
      OrderedWellFormed(w.members, le);
      EquivalentMembers(Ordered(ms, le), Ordered(w.members, le), le);
    case _ =>
  }

  // -- and one normal form means equivalent values

  lemma {:induction false} NormalItemAt(items: seq<Value>, le: Order, i: nat)
    requires i < |items|
    ensures NormalItems(items, le)[i] == Normal(items[i], le)
  {
    if i > 0 {
      NormalItemAt(items[1..], le, i - 1);
    }
  }

  lemma {:induction false} NormalMemberAt(ms: Members, le: Order, i: nat)
    requires i < |ms|
    ensures NormalMembers(ms, le)[i] == Entry(ms[i].key, Normal(ms[i].value, le))
  {
    if i > 0 {
      NormalMemberAt(ms[1..], le, i - 1);
    }
  }

  lemma SameNormalMembers(ms: Members, ns: Members, le: Order, i: nat, j: nat)
    requires Preorder(le) && DistinctKeys(ms) && DistinctKeys(ns) && i < |ms| && j < |ns|
    requires NormalMembers(Ordered(ms, le), le) == NormalMembers(Ordered(ns, le), le)
    requires ms[i].key == ns[j].key && !ms[i].value.Undefined? && !ns[j].value.Undefined?
    ensures Normal(ms[i].value, le) == Normal(ns[j].value, le)
  {
    var es, fs := Ordered(ms, le), Ordered(ns, le);
    OrderedMembers(ms, le);
    OrderedMembers(ns, le);
    OrderedIsSorted(ms, le);
    assert ms[i] in es && ns[j] in fs;
    var p :| 0 <= p < |es| && es[p] == ms[i];
    var q :| 0 <= q < |fs| && fs[q] == ns[j];
    assert |es| == |NormalMembers(es, le)| == |fs|;
    NormalMemberAt(es, le, p);
    NormalMemberAt(es, le, q);
    NormalMemberAt(fs, le, q);
    assert es[q].key == fs[q].key == es[p].key;
    assert p == q;
  }

  lemma SameNormalKeys(ms: Members, ns: Members, le: Order, k: Text)
    requires Preorder(le) && DistinctKeys(ms) && DistinctKeys(ns)
    requires NormalMembers(Ordered(ms, le), le) == NormalMembers(Ordered(ns, le), le)
    ensures HasKey(Defined(ms), k) ==> HasKey(Defined(ns), k)
  {
    OrderedIsSorted(ms, le);
    OrderedIsSorted(ns, le);
    var es, fs := Ordered(ms, le), Ordered(ns, le);
    assert |es| == |NormalMembers(es, le)| == |fs|;
    if HasKey(es, k) {
      var p :| 0 <= p < |es| && es[p].key == k;
      NormalMemberAt(es, le, p);
      NormalMemberAt(fs, le, p);
      assert HasKey(fs, k);
    }
  }

  lemma {:induction false} OneNormalMeansEquivalent(v: Value, w: Value, le: Order)
    requires Preorder(le) && WellFormed(v) && WellFormed(w) && Normal(v, le) == Normal(w, le)
    ensures Equivalent(v, w)
    decreases Size(v)
  {
    match v
    case Arr(items) =>
      forall i | 0 <= i < |items| ensures Equivalent(items[i], w.items[i]) {
        NormalItemAt(items, le, i);
        NormalItemAt(w.items, le, i);
        ItemSize(items, i);
        OneNormalMeansEquivalent(items[i], w.items[i], le);
      }
    case Obj(ms) =>
      var ns := w.members;
      forall k: Text ensures HasKey(Defined(ms), k) <==> HasKey(Defined(ns), k) {
        SameNormalKeys(ms, ns, le, k);
        SameNormalKeys(ns, ms, le, k);
      }
      forall i, j | 0 <= i < |ms| && 0 <= j < |ns| && ms[i].key == ns[j].key
          && !ms[i].value.Undefined? && !ns[j].value.Undefined?
        ensures Equivalent(ms[i].value, ns[j].value)
      {
        SameNormalMembers(ms, ns, le, i, j);
        MemberSize(ms, i);
        OneNormalMeansEquivalent(ms[i].value, ns[j].value, le);
      }
    case _ =>
  }

  // ------------------------------------------------------------------ the printer reads only the normal form

  lemma {:induction false} DefinedIsFixed(ms: Members)
    requires forall i | 0 <= i < |ms| :: !ms[i].value.Undefined?
    ensures Defined(ms) == ms
  {
    if ms != [] {
      DefinedIsFixed(ms[1..]);
      assert ms == [ms[0]] + ms[1..];
    }
  }

  lemma NormalMembersAreOrdered(ms: Members, le: Order)
    requires Preorder(le)
    ensures var ns := NormalMembers(Ordered(ms, le), le); Ordered(ns, le) == ns
  {
    var es := Ordered(ms, le);
    var ns := NormalMembers(es, le);
    OrderedMembers(ms, le);
    forall i | 0 <= i < |ns| ensures !ns[i].value.Undefined? {
      NormalMemberAt(es, le, i);
      assert es[i] in es;
    }
    DefinedIsFixed(ns);
    SortSorts(Defined(ms), le);
    assert Sorted(ns, le);
    SortedIsFixed(ns, le);
  }

  lemma {:induction false} PrintNormalItems(items: seq<Value>, le: Order)
    requires Preorder(le)
    ensures PrintItems(NormalItems(items, le), le) == PrintItems(items, le)
    decreases ItemsSize(items)
  {
    if items != [] {
      CanonicalOfNormal(items[0], le);
      PrintNormalItems(items[1..], le);
      assert NormalItems(items, le)[1..] == NormalItems(items[1..], le);
    }
  }

  lemma {:induction false} PrintNormalMembers(ms: Members, le: Order)
    requires Preorder(le)
    ensures PrintMembers(NormalMembers(ms, le), le) == PrintMembers(ms, le)
    decreases MembersSize(ms)
  {
    if ms != [] {
      CanonicalOfNormal(ms[0].value, le);
      PrintNormalMembers(ms[1..], le);
      assert NormalMembers(ms, le)[1..] == NormalMembers(ms[1..], le);
    }
  }

  lemma {:induction false} CanonicalOfNormal(v: Value, le: Order)
    requires Preorder(le)
    ensures Canonical(Normal(v, le), le) == Canonical(v, le)
    decreases Size(v)
  {
    match v
    case Arr(items) => PrintNormalItems(items, le);
    case Obj(ms) =>
      NormalMembersAreOrdered(ms, le);
      PrintNormalMembers(Ordered(ms, le), le);
    case _ =>
  }

  // ------------------------------------------------------------------ canonical means canonical

  /** Two printable values print equally exactly when they are equal up to key order and undefined members. */
  lemma CanonicalDeterminesValue(v: Value, w: Value, le: Order)
    requires Preorder(le) && WellFormed(v) && WellFormed(w) && Printable(v) && Printable(w) && Separated(v, le)
    ensures Canonical(v, le) == Canonical(w, le) <==> Equivalent(v, w)
  {
    CanonicalPrintsExactly(v, le);
    CanonicalPrintsExactly(w, le);
    if Canonical(v, le) == Canonical(w, le) {
      EqualTextMeansEquivalent(v, w, le);
    }
    if Equivalent(v, w) {
      EquivalentPrintAlike(v, w, le);
    }
  }

  /** Whatever the order on keys, values that print equally are equivalent. */
  lemma EqualTextMeansEquivalent(v: Value, w: Value, le: Order)
    requires Preorder(le) && WellFormed(v) && WellFormed(w)
    requires Canonical(v, le).Ok? && Canonical(v, le) == Canonical(w, le)
    ensures Equivalent(v, w)
  {
    ParseInvertsCanonical(v, le);
    ParseInvertsCanonical(w, le);
    OneNormalMeansEquivalent(v, w, le);
  }

  lemma EquivalentPrintAlike(v: Value, w: Value, le: Order)
    requires Preorder(le) && WellFormed(v) && WellFormed(w) && Separated(v, le) && Equivalent(v, w)
    ensures Canonical(v, le) == Canonical(w, le)
  {
    EquivalentHaveOneNormal(v, w, le);
    CanonicalOfNormal(v, le);
    CanonicalOfNormal(w, le);
  }

  // -- tied keys show: some reordering prints differently

  lemma {:induction false} EquivalentToItself(v: Value)
    requires WellFormed(v)
    ensures Equivalent(v, v)
    decreases v
  {
    match v
    case Arr(items) =>
      forall i | 0 <= i < |items| ensures Equivalent(items[i], items[i]) {
        EquivalentToItself(items[i]);
      }
    case Obj(ms) =>
      forall i, j | 0 <= i < |ms| && 0 <= j < |ms| && ms[i].key == ms[j].key
        ensures Equivalent(ms[i].value, ms[j].value)
      {
        assert i == j;
        EquivalentToItself(ms[i].value);
      }
    case _ =>
  }

  /** Two adjacent tied entries of a sorted list. */
  lemma AdjacentTie(es: Members, le: Order) returns (p: nat)
    requires Preorder(le) && Sorted(es, le) && !NoTies(es, le)
    ensures p + 1 < |es| && Tied(es[p].key, es[p + 1].key, le)
  {
    var i, j :| 0 <= i < j < |es| && Tied(es[i].key, es[j].key, le);
    p := i;
    assert i + 1 < j ==> le(es[i + 1].key, es[j].key);
    assert le(es[i].key, es[i + 1].key);
  }

  lemma EntriesEquivalent(ms: Members, ns: Members)
    requires WellFormed(Obj(ms)) && (forall i | 0 <= i < |ns| :: ns[i] in ms && !ns[i].value.Undefined?)
    requires forall k: Text :: HasKey(ns, k) <==> HasKey(Defined(ms), k)
    ensures Equivalent(Obj(ms), Obj(ns)) && AllWellFormed(ns)
  {
    DefinedIsFixed(ns);
    forall i, j | 0 <= i < |ms| && 0 <= j < |ns| && ms[i].key == ns[j].key
      ensures Equivalent(ms[i].value, ns[j].value)
    {
      var q :| 0 <= q < |ms| && ms[q] == ns[j];
      assert i == q;
      EquivalentToItself(ms[i].value);
    }
  }

  lemma KeyAtTells(ms: Members, ns: Members, le: Order, p: nat)
    requires p < |Ordered(ms, le)| && p < |Ordered(ns, le)| && Ordered(ms, le)[p].key != Ordered(ns, le)[p].key
    ensures Normal(Obj(ms), le) != Normal(Obj(ns), le)
  {
    NormalMemberAt(Ordered(ms, le), le, p);
    NormalMemberAt(Ordered(ns, le), le, p);
  }

  /** An object with a tie has an equivalent that is also in printing order, with the tied keys exchanged. */
  lemma TieShows(ms: Members, le: Order) returns (ns: Members)
    requires Preorder(le) && WellFormed(Obj(ms)) && !NoTies(Defined(ms), le)
    ensures WellFormed(Obj(ns)) && Equivalent(Obj(ms), Obj(ns)) && Normal(Obj(ms), le) != Normal(Obj(ns), le)
  {
    var es := Ordered(ms, le);
    OrderedIsSorted(ms, le);
    OrderedTies(ms, le);
    var p := AdjacentTie(es, le);
    ns := es[p := es[p + 1]][p + 1 := es[p]];
    ExchangedEntries(ms, es, ns, p, le);
    EntriesEquivalent(ms, ns);
    ExchangedStaySorted(es, ns, p, le);
    SortedIsFixed(ns, le);
    KeyAtTells(ms, ns, le, p);
  }

  lemma ExchangedEntries(ms: Members, es: Members, ns: Members, p: nat, le: Order)
    requires Preorder(le) && DistinctKeys(ms) && es == Ordered(ms, le) && p + 1 < |es|
    requires ns == es[p := es[p + 1]][p + 1 := es[p]]
    ensures DistinctKeys(ns) && Defined(ns) == ns && forall i | 0 <= i < |ns| :: ns[i] in ms && !ns[i].value.Undefined?
    ensures forall k: Text :: HasKey(ns, k) <==> HasKey(Defined(ms), k)
  {
    OrderedIsSorted(ms, le);
    OrderedMembers(ms, le);
    assert forall i | 0 <= i < |es| :: es[i] in ms && !es[i].value.Undefined?;
    ExchangedKeepEntries(ms, es, ns, p);
    DefinedIsFixed(ns);
  }

  lemma ExchangedKeepEntries(ms: Members, es: Members, ns: Members, p: nat)
    requires DistinctKeys(es) && p + 1 < |es| && ns == es[p := es[p + 1]][p + 1 := es[p]]
    requires forall i | 0 <= i < |es| :: es[i] in ms && !es[i].value.Undefined?
    ensures DistinctKeys(ns) && forall i | 0 <= i < |ns| :: ns[i] in ms && !ns[i].value.Undefined?
    ensures forall k: Text :: HasKey(ns, k) <==> HasKey(es, k)
  {
    forall k: Text ensures HasKey(ns, k) <==> HasKey(es, k) {
      ExchangedKeys(es, ns, p, k);
      ExchangedKeys(ns, es, p, k);
    }
  }

  lemma ExchangedKeys(es: Members, ns: Members, p: nat, k: Text)
    requires p + 1 < |es| && ns == es[p := es[p + 1]][p + 1 := es[p]]
    ensures HasKey(es, k) ==> HasKey(ns, k)
  {
    if i :| 0 <= i < |es| && es[i].key == k {
      assert ns[if i == p then p + 1 else if i == p + 1 then p else i].key == k;
    }
  }

  lemma ExchangedStaySorted(es: Members, ns: Members, p: nat, le: Order)
    requires Sorted(es, le) && p + 1 < |es| && Tied(es[p].key, es[p + 1].key, le)
    requires ns == es[p := es[p + 1]][p + 1 := es[p]]
    ensures Sorted(ns, le)
  {
  }

  lemma ItemReplaced(items: seq<Value>, i: nat, item: Value, le: Order)
    requires WellFormed(Arr(items)) && i < |items| && WellFormed(item) && Equivalent(items[i], item)
    requires Normal(items[i], le) != Normal(item, le)
    ensures var w := Arr(items[i := item]);
      WellFormed(w) && Equivalent(Arr(items), w) && Normal(Arr(items), le) != Normal(w, le)
  {
    var after := items[i := item];
    forall j | 0 <= j < |items| ensures Equivalent(items[j], after[j]) {
      EquivalentToItself(items[j]);
    }
    NormalItemAt(items, le, i);
    NormalItemAt(after, le, i);
  }

  /** A value with tied keys somewhere has an equivalent with another normal form. */
  lemma {:induction false} TiesShow(v: Value, le: Order) returns (w: Value)
    requires Preorder(le) && WellFormed(v) && !Separated(v, le)
    ensures WellFormed(w) && Equivalent(v, w) && Normal(v, le) != Normal(w, le)
    decreases v
  {
    match v
    case Arr(items) => {
      var i :| 0 <= i < |items| && !Separated(items[i], le);
      var item := TiesShow(items[i], le);
      w := Arr(items[i := item]);
      ItemReplaced(items, i, item, le);
    }
    case Obj(ms) => {
      if !NoTies(Defined(ms), le) {
        var ns := TieShows(ms, le);
        w := Obj(ns);
      } else {
        var i :| 0 <= i < |ms| && !Separated(ms[i].value, le);
        var value := TiesShow(ms[i].value, le);
        w := Obj(ms[i := Entry(ms[i].key, value)]);
        MemberReplaced(ms, i, value, le);
      }
    }
  }

  lemma ReplacedKeepsKeys(ms: Members, i: nat, value: Value)
    requires DistinctKeys(ms) && i < |ms| && !ms[i].value.Undefined? && !value.Undefined?
    ensures var ns := ms[i := Entry(ms[i].key, value)];
      DistinctKeys(ns) && forall k: Text :: HasKey(Defined(ms), k) <==> HasKey(Defined(ns), k)
  {
    var ns := ms[i := Entry(ms[i].key, value)];
    forall k: Text ensures HasKey(Defined(ms), k) <==> HasKey(Defined(ns), k) {
      DefinedKeyAt(ms, ns, i, k);
      DefinedKeyAt(ns, ms, i, k);
    }
  }

  lemma ReplacedIsEquivalent(ms: Members, i: nat, value: Value)
    requires WellFormed(Obj(ms)) && i < |ms| && WellFormed(value) && Equivalent(ms[i].value, value)
    requires !ms[i].value.Undefined? && !value.Undefined?
    ensures var w := Obj(ms[i := Entry(ms[i].key, value)]); WellFormed(w) && Equivalent(Obj(ms), w)
  {
    var ns := ms[i := Entry(ms[i].key, value)];
    ReplacedKeepsKeys(ms, i, value);
    forall p, q | 0 <= p < |ms| && 0 <= q < |ns| && ms[p].key == ns[q].key
      ensures Equivalent(ms[p].value, ns[q].value)
    {
      assert p == q;
      EquivalentToItself(ms[p].value);
    }
  }

  lemma DefinedEquivalent(v: Value, w: Value)
    requires Equivalent(v, w)
    ensures v.Undefined? <==> w.Undefined?
  {
  }

  lemma MemberReplaced(ms: Members, i: nat, value: Value, le: Order)
    requires Preorder(le) && WellFormed(Obj(ms)) && i < |ms| && WellFormed(value) && Equivalent(ms[i].value, value)
    requires !ms[i].value.Undefined? && Normal(ms[i].value, le) != Normal(value, le)
    ensures var w := Obj(ms[i := Entry(ms[i].key, value)]);
      WellFormed(w) && Equivalent(Obj(ms), w) && Normal(Obj(ms), le) != Normal(w, le)
  {
    var ns := ms[i := Entry(ms[i].key, value)];
    DefinedEquivalent(ms[i].value, value);
    ReplacedIsEquivalent(ms, i, value);
    if Normal(Obj(ms), le) == Normal(Obj(ns), le) {
      SameNormalMembers(ms, ns, le, i, i);
    }
  }

  lemma DefinedKeyAt(ms: Members, ns: Members, i: nat, k: Text)
    requires i < |ms| == |ns| && ms[i].key == ns[i].key && !ms[i].value.Undefined? && !ns[i].value.Undefined?
    requires forall j | 0 <= j < |ms| && j != i :: ms[j] == ns[j]
    ensures HasKey(Defined(ms), k) ==> HasKey(Defined(ns), k)
  {
    if HasKey(Defined(ms), k) {
      DefinedMembers(ms);
      DefinedMembers(ns);
      var p :| 0 <= p < |Defined(ms)| && Defined(ms)[p].key == k;
      assert Defined(ms)[p] in ms;
      var q :| 0 <= q < |ms| && ms[q] == Defined(ms)[p];
      assert ns[q] in Defined(ns);
      var r :| 0 <= r < |Defined(ns)| && Defined(ns)[r] == ns[q];
    }
  }

  /** Everything equivalent to `v` prints as `v` does. */
  ghost predicate OrderBlind(v: Value, le: Order) {
    forall w: Value | WellFormed(w) && Equivalent(v, w) :: Canonical(w, le) == Canonical(v, le)
  }

  lemma {:induction false} EquivalentPrintable(v: Value, w: Value)
    requires WellFormed(v) && WellFormed(w) && Equivalent(v, w) && Printable(v)
    ensures Printable(w)
    decreases v
  {
    match v
    case Arr(items) =>
      forall i | 0 <= i < |items| ensures Printable(w.items[i]) {
        EquivalentPrintable(items[i], w.items[i]);
      }
    case Obj(ms) =>
      var ns := w.members;
      forall j | 0 <= j < |ns| && !ns[j].value.Undefined? ensures Printable(ns[j].value) {
        DefinedMembers(ns);
        DefinedMembers(ms);
        assert ns[j] in Defined(ns);
        var p :| 0 <= p < |Defined(ns)| && Defined(ns)[p] == ns[j];
        assert HasKey(Defined(ms), ns[j].key);
        var q :| 0 <= q < |Defined(ms)| && Defined(ms)[q].key == ns[j].key;
        assert Defined(ms)[q] in ms;
        var i :| 0 <= i < |ms| && ms[i] == Defined(ms)[q];
        EquivalentPrintable(ms[i].value, ns[j].value);
      }
    case _ =>
  }

  /** The insertion order of a printable value is invisible exactly when no object in it, at any depth, has
      two printed keys that the comparison ties. */
  lemma CanonicalIgnoresOrderExactly(v: Value, le: Order)
    requires Preorder(le) && WellFormed(v) && Printable(v)
    ensures OrderBlind(v, le) <==> Separated(v, le)
  {
    if Separated(v, le) {
      forall w: Value | WellFormed(w) && Equivalent(v, w) ensures Canonical(v, le) == Canonical(w, le) {
        EquivalentPrintAlike(v, w, le);
      }
    } else {
      var w := TiesShow(v, le);
      EquivalentPrintable(v, w);
      CanonicalPrintsExactly(v, le);
      CanonicalPrintsExactly(w, le);
      ParseInvertsCanonical(v, le);
      ParseInvertsCanonical(w, le);
    }
  }
}
