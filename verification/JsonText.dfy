/** JavaScript strings as UTF-16 code units, and the JSON spelling of strings and integers with readers
    that invert it (sections 6 and 7 of RFC 8259). */
module JsonText {
  import opened Wrappers

  type Unit = u: nat | u < 0x10000

  type Text = seq<Unit>

  const QUOTE: Unit := '"' as int
  const BACKSLASH: Unit := '\\' as int
  const LOWER_U: Unit := 'u' as int
  const MINUS: Unit := '-' as int
  const ZERO: Unit := '0' as int

  /** What a reader returns: a value and the text after it. */
  datatype Parsed<+T> = Parsed(value: T, rest: Text)

  // ------------------------------------------------------------------ strings

  predicate HighSurrogate(u: Unit) { 0xD800 <= u < 0xDC00 }

  predicate LowSurrogate(u: Unit) { 0xDC00 <= u < 0xE000 }

  predicate StartsWithPair(s: Text) {
    |s| >= 2 && HighSurrogate(s[0]) && LowSurrogate(s[1])
  }

  function HexDigit(d: nat): Unit
    requires d < 16
  {
    if d < 10 then '0' as int + d else 'a' as int + (d - 10)
  }

  function HexValue(u: Unit): Option<nat> {
    if '0' as int <= u <= '9' as int then Some(u - '0' as int)
    else if 'a' as int <= u <= 'f' as int then Some(u - 'a' as int + 10)
    else if 'A' as int <= u <= 'F' as int then Some(u - 'A' as int + 10)
    else None
  }

  function Hex4(u: Unit): Text {
    [HexDigit(u / 4096), HexDigit(u / 256 % 16), HexDigit(u / 16 % 16), HexDigit(u % 16)]
  }

  /** The letter after the backslash in a two-unit escape. */
  function ShortEscape(u: Unit): Option<Unit> {
    if u == QUOTE || u == BACKSLASH then Some(u)
    else if u == 8 then Some('b' as int)
    else if u == 9 then Some('t' as int)
    else if u == 10 then Some('n' as int)
    else if u == 12 then Some('f' as int)
    else if u == 13 then Some('r' as int)
    else None
  }

  function Unescape(letter: Unit): Option<Unit> {
    if letter == QUOTE || letter == BACKSLASH || letter == '/' as int then Some(letter)
    else if letter == 'b' as int then Some(8)
    else if letter == 't' as int then Some(9)
    else if letter == 'n' as int then Some(10)
    else if letter == 'f' as int then Some(12)
    else if letter == 'r' as int then Some(13)
    else None
  }

  /** One code unit; a surrogate reaches here only when it stands alone. */
  function EscapeUnit(u: Unit): Text {
    if ShortEscape(u).Some? then [BACKSLASH, ShortEscape(u).value]
    else if u < 32 || HighSurrogate(u) || LowSurrogate(u) then [BACKSLASH, LOWER_U] + Hex4(u)
    else [u]
  }

  function Escape(s: Text): Text {
    if s == [] then []
    else if StartsWithPair(s) then s[..2] + Escape(s[2..])
    else EscapeUnit(s[0]) + Escape(s[1..])
  }

  /** JSON.stringify of a string. */
  function Quote(s: Text): Text {
    [QUOTE] + Escape(s) + [QUOTE]
  }

  /** One escape sequence after its backslash. */
  function ReadEscape(t: Text): (r: Option<Parsed<Unit>>)
    ensures r.Some? ==> |r.value.rest| < |t|
  {
    if t == [] then None
    else if Unescape(t[0]).Some? then Some(Parsed(Unescape(t[0]).value, t[1..]))
    else if t[0] == LOWER_U && |t| >= 5 then
      var (a, b, c, d) := (HexValue(t[1]), HexValue(t[2]), HexValue(t[3]), HexValue(t[4]));
      if a.Some? && b.Some? && c.Some? && d.Some? && a.value < 16 && b.value < 16 && c.value < 16 && d.value < 16 then
        Some(Parsed(((a.value * 16 + b.value) * 16 + c.value) * 16 + d.value, t[5..]))
      else None
    else None
  }

  /** The body of a string, up to and including its closing quote. */
  function ReadChars(t: Text): (r: Option<Parsed<Text>>)
    ensures r.Some? ==> |r.value.rest| < |t|
    decreases |t|
  {
    if t == [] || t[0] < 32 then None
    else if t[0] == QUOTE then Some(Parsed([], t[1..]))
    else if t[0] == BACKSLASH then
      match ReadEscape(t[1..])
      case None => None
      case Some(Parsed(u, rest)) =>
        (match ReadChars(rest) case None => None case Some(Parsed(us, rest')) => Some(Parsed([u] + us, rest')))
    else
      match ReadChars(t[1..]) case None => None case Some(Parsed(us, rest)) => Some(Parsed([t[0]] + us, rest))
  }

  lemma HexDigitRoundTrip(d: nat)
    requires d < 16
    ensures HexValue(HexDigit(d)) == Some(d)
  {
  }

  lemma HexSum(u: Unit)
    ensures u / 4096 < 16 && ((u / 4096 * 16 + u / 256 % 16) * 16 + u / 16 % 16) * 16 + u % 16 == u
  {
    assert u / 16 / 16 == u / 256 && u / 256 / 16 == u / 4096;
  }

  lemma HexRoundTrip(u: Unit, tail: Text)
    ensures ReadEscape([LOWER_U] + Hex4(u) + tail) == Some(Parsed(u, tail))
  {
    var (a, b, c, d) := (u / 4096, u / 256 % 16, u / 16 % 16, u % 16);
    HexSum(u);
    HexDigitRoundTrip(a);
    HexDigitRoundTrip(b);
    HexDigitRoundTrip(c);
    HexDigitRoundTrip(d);
    var t := [LOWER_U] + Hex4(u) + tail;
    assert t == [LOWER_U, HexDigit(a), HexDigit(b), HexDigit(c), HexDigit(d)] + tail;
    assert t[5..] == tail;
  }

  lemma VerbatimRoundTrip(u: Unit, t: Text, us: Text, rest: Text)
    requires u >= 32 && u != QUOTE && u != BACKSLASH && ReadChars(t) == Some(Parsed(us, rest))
    ensures ReadChars([u] + t) == Some(Parsed([u] + us, rest))
  {
    assert ([u] + t)[1..] == t;
  }

  lemma ShortRoundTrip(u: Unit, t: Text, us: Text, rest: Text)
    requires ShortEscape(u).Some? && ReadChars(t) == Some(Parsed(us, rest))
    ensures ReadChars([BACKSLASH, ShortEscape(u).value] + t) == Some(Parsed([u] + us, rest))
  {
    var e := [BACKSLASH, ShortEscape(u).value] + t;
    assert e[1..] == [ShortEscape(u).value] + t && e[1..][1..] == t;
    assert ReadEscape(e[1..]) == Some(Parsed(u, t));
  }

  lemma LongRoundTrip(u: Unit, t: Text, us: Text, rest: Text)
    requires ReadChars(t) == Some(Parsed(us, rest))
    ensures ReadChars([BACKSLASH, LOWER_U] + Hex4(u) + t) == Some(Parsed([u] + us, rest))
  {
    var e := [BACKSLASH, LOWER_U] + Hex4(u) + t;
    HexRoundTrip(u, t);
    assert e[1..] == [LOWER_U] + Hex4(u) + t;
  }

  lemma UnitRoundTrip(u: Unit, t: Text, us: Text, rest: Text)
    requires ReadChars(t) == Some(Parsed(us, rest))
    ensures ReadChars(EscapeUnit(u) + t) == Some(Parsed([u] + us, rest))
  {
    if ShortEscape(u).Some? {
      ShortRoundTrip(u, t, us, rest);
    } else if u < 32 || HighSurrogate(u) || LowSurrogate(u) {
      LongRoundTrip(u, t, us, rest);
    } else {
      VerbatimRoundTrip(u, t, us, rest);
    }
  }

  lemma PairRoundTrip(a: Unit, b: Unit, t: Text, us: Text, rest: Text)
    requires HighSurrogate(a) && LowSurrogate(b) && ReadChars(t) == Some(Parsed(us, rest))
    ensures ReadChars([a] + ([b] + t)) == Some(Parsed([a] + ([b] + us), rest))
  {
    VerbatimRoundTrip(b, t, us, rest);
    VerbatimRoundTrip(a, [b] + t, [b] + us, rest);
  }

  lemma CloseRoundTrip(tail: Text)
    ensures ReadChars([QUOTE] + tail) == Some(Parsed([], tail))
  {
    assert ([QUOTE] + tail)[1..] == tail;
  }

  lemma Assoc<T>(a: seq<T>, b: seq<T>, c: seq<T>)
    ensures (a + b) + c == a + (b + c)
  {
  }

  lemma SplitPair(s: Text)
    requires |s| >= 2
    ensures s[..2] == [s[0]] + [s[1]] && s == [s[0]] + ([s[1]] + s[2..])
  {
  }

  lemma EscapeSplit(s: Text, end: Text)
    ensures s == [] ==> Escape(s) + end == end
    ensures StartsWithPair(s) ==> Escape(s) + end == [s[0]] + ([s[1]] + (Escape(s[2..]) + end))
    ensures s != [] && !StartsWithPair(s) ==> Escape(s) + end == EscapeUnit(s[0]) + (Escape(s[1..]) + end)
  {
    if s == [] {
    } else if StartsWithPair(s) {
      SplitPair(s);
      Assoc(s[..2], Escape(s[2..]), end);
      Assoc([s[0]], [s[1]], Escape(s[2..]) + end);
    } else {
      Assoc(EscapeUnit(s[0]), Escape(s[1..]), end);
    }
  }

  /** The reader takes `s` from the front of `t` and leaves `tail`. */
  ghost predicate Reads(t: Text, s: Text, tail: Text) {
    ReadChars(t) == Some(Parsed(s, tail))
  }

  lemma PairReads(s: Text, tail: Text)
    requires StartsWithPair(s) && Reads(Escape(s[2..]) + ([QUOTE] + tail), s[2..], tail)
    ensures Reads(Escape(s) + ([QUOTE] + tail), s, tail)
  {
    var end, us := [QUOTE] + tail, s[2..];
    var t := Escape(us) + end;
    EscapeSplit(s, end);
    SplitPair(s);
    PairRoundTrip(s[0], s[1], t, us, tail);
  }

  lemma UnitReads(s: Text, tail: Text)
    requires s != [] && !StartsWithPair(s) && Reads(Escape(s[1..]) + ([QUOTE] + tail), s[1..], tail)
    ensures Reads(Escape(s) + ([QUOTE] + tail), s, tail)
  {
    var end, us := [QUOTE] + tail, s[1..];
    var t := Escape(us) + end;
    EscapeSplit(s, end);
    UnitRoundTrip(s[0], t, us, tail);
    assert s == [s[0]] + us;
  }

  lemma {:induction false} EscapeRoundTrip(s: Text, tail: Text)
    ensures Reads(Escape(s) + ([QUOTE] + tail), s, tail)
    decreases |s|
  {
    if s == [] {
      EscapeSplit(s, [QUOTE] + tail);
      CloseRoundTrip(tail);
    } else if StartsWithPair(s) {
      EscapeRoundTrip(s[2..], tail);
      PairReads(s, tail);
    } else {
      EscapeRoundTrip(s[1..], tail);
      UnitReads(s, tail);
    }
  }

  /** Reading a quoted string returns it, whatever text follows. */
  lemma QuoteRoundTrip(s: Text, tail: Text)
    ensures (Quote(s) + tail)[0] == QUOTE && ReadChars((Quote(s) + tail)[1..]) == Some(Parsed(s, tail))
  {
    EscapeRoundTrip(s, tail);
    var body := Escape(s) + ([QUOTE] + tail);
    assert Quote(s) + tail == [QUOTE] + body;
    assert ([QUOTE] + body)[1..] == body;
  }

  /** A quoted string holds no control character and no lone surrogate. */
  lemma {:induction false} EscapeIsClean(s: Text, i: nat)
    requires i < |Escape(s)|
    ensures Escape(s)[i] >= 32
    ensures HighSurrogate(Escape(s)[i]) ==> i + 1 < |Escape(s)| && LowSurrogate(Escape(s)[i + 1])
    ensures LowSurrogate(Escape(s)[i]) ==> i > 0 && HighSurrogate(Escape(s)[i - 1])
    decreases |s|
  {
    if StartsWithPair(s) {
      if i >= 2 {
        EscapeIsClean(s[2..], i - 2);
      }
    } else {
      var n := |EscapeUnit(s[0])|;
      if i >= n {
        EscapeIsClean(s[1..], i - n);
      }
    }
  }

  // ------------------------------------------------------------------ what the text of a string is

  /** A surrogate without its other half beside it. */
  predicate IsLone(s: Text, i: nat)
    requires i < |s|
  {
    || (HighSurrogate(s[i]) && !(i + 1 < |s| && LowSurrogate(s[i + 1])))
    || (LowSurrogate(s[i]) && !(i > 0 && HighSurrogate(s[i - 1])))
  }

  /** How JSON.stringify spells the unit at `i`: itself, but for quotes, backslashes, control characters and lone
      surrogates. */
  function Spelling(s: Text, i: nat): Text
    requires i < |s|
  {
    match s[i]
    case 34 => [92, 34]
    case 92 => [92, 92]
    case 8 => [92, 'b' as int]
    case 9 => [92, 't' as int]
    case 10 => [92, 'n' as int]
    case 12 => [92, 'f' as int]
    case 13 => [92, 'r' as int]
    case u => if u < 32 || IsLone(s, i) then [92, 'u' as int] + Hex4(u) else [u]
  }

  predicate IsLowerHex(u: Unit) {
    '0' as int <= u <= '9' as int || 'a' as int <= u <= 'f' as int
  }

  /** The hexadecimal digits are lower-case and four, and their value is the unit. */
  lemma Hex4IsTheUnit(u: Unit)
    ensures |Hex4(u)| == 4 && forall i | 0 <= i < 4 :: IsLowerHex(Hex4(u)[i]) && HexValue(Hex4(u)[i]).Some?
    ensures var (a, b) := (HexValue(Hex4(u)[0]), HexValue(Hex4(u)[1]));
      var (c, d) := (HexValue(Hex4(u)[2]), HexValue(Hex4(u)[3]));
      ((a.value * 16 + b.value) * 16 + c.value) * 16 + d.value == u
  {
    HexSum(u);
    HexDigitRoundTrip(u / 4096);
    HexDigitRoundTrip(u / 256 % 16);
    HexDigitRoundTrip(u / 16 % 16);
    HexDigitRoundTrip(u % 16);
  }

  function Spelled(s: Text, i: nat): Text
    requires i <= |s|
    decreases |s| - i
  {
    if i == |s| then [] else Spelling(s, i) + Spelled(s, i + 1)
  }

  lemma UnitSpelled(s: Text, i: nat)
    requires i < |s| && (IsLone(s, i) <==> HighSurrogate(s[i]) || LowSurrogate(s[i]))
    ensures EscapeUnit(s[i]) == Spelling(s, i)
  {
  }

  lemma PairSpelled(s: Text, i: nat)
    requires i + 2 <= |s| && StartsWithPair(s[i..]) && Escape(s[i + 2..]) == Spelled(s, i + 2)
    ensures Escape(s[i..]) == Spelled(s, i)
  {
    var t := s[i..];
    assert t[..2] == [s[i]] + [s[i + 1]] && t[2..] == s[i + 2..];
    assert Spelling(s, i) == [s[i]] && Spelling(s, i + 1) == [s[i + 1]];
    Assoc([s[i]], [s[i + 1]], Spelled(s, i + 2));
  }

  lemma {:induction false} EscapeSpells(s: Text, i: nat)
    requires i <= |s| && !(0 < i < |s| && HighSurrogate(s[i - 1]) && LowSurrogate(s[i]))
    ensures Escape(s[i..]) == Spelled(s, i)
    decreases |s| - i
  {
    if i < |s| {
      var t := s[i..];
      if StartsWithPair(t) {
        EscapeSpells(s, i + 2);
        PairSpelled(s, i);
      } else {
        EscapeSpells(s, i + 1);
        UnitSpelled(s, i);
        assert t[0] == s[i] && t[1..] == s[i + 1..];
      }
    }
  }

  /** The text of a string, apart from any reader. */
  lemma QuoteSpells(s: Text)
    ensures Quote(s) == [QUOTE] + Spelled(s, 0) + [QUOTE]
  {
    EscapeSpells(s, 0);
    assert s[0..] == s;
  }

  /** A unit that is spelled as itself: nothing but a quote, a backslash, a control character or a lone surrogate
      is spelled otherwise, a slash in particular. */
  predicate IsPlain(s: Text, i: nat)
    requires i < |s|
  {
    s[i] >= 32 && s[i] != QUOTE && s[i] != BACKSLASH && !IsLone(s, i)
  }

  lemma PlainSpelling(s: Text, i: nat)
    requires i < |s| && IsPlain(s, i)
    ensures Spelling(s, i) == [s[i]]
  {
  }

  lemma {:induction false} PlainFrom(s: Text, i: nat)
    requires i <= |s| && forall j: nat | i <= j < |s| :: IsPlain(s, j)
    ensures Spelled(s, i) == s[i..]
    decreases |s| - i
  {
    if i < |s| {
      PlainFrom(s, i + 1);
      PlainSpelling(s, i);
      assert s[i..] == [s[i]] + s[i + 1..];
    }
  }

  /** Plain text is quoted and otherwise left alone. */
  lemma PlainIsVerbatim(s: Text)
    requires forall i: nat | i < |s| :: IsPlain(s, i)
    ensures Quote(s) == [QUOTE] + s + [QUOTE]
  {
    QuoteSpells(s);
    PlainFrom(s, 0);
  }

  // ------------------------------------------------------------------ integers

  predicate IsDigit(u: Unit) { '0' as int <= u <= '9' as int }

  function Digits(n: nat): (t: Text)
    ensures t != [] && forall u <- t :: IsDigit(u)
  {
    if n < 10 then [ZERO + n] else Digits(n / 10) + [ZERO + n % 10]
  }

  /** JSON.stringify of an integer. */
  function PrintInt(n: int): Text {
    if n < 0 then [MINUS] + Digits(-n) else Digits(n)
  }

  function DigitValue(t: Text): nat
    requires forall u <- t :: IsDigit(u)
  {
    if t == [] then 0
    else
      var last := t[|t| - 1];
      assert IsDigit(last);
      DigitValue(t[..|t| - 1]) * 10 + (last - ZERO)
  }

  function DigitRun(t: Text): (n: nat)
    ensures n <= |t| && forall u <- t[..n] :: IsDigit(u)
    ensures n < |t| ==> !IsDigit(t[n])
  {
    if t == [] || !IsDigit(t[0]) then 0
    else
      var n := DigitRun(t[1..]);
      assert t[..n + 1] == [t[0]] + t[1..][..n];
      n + 1
  }

  /** A digit run without a superfluous leading zero. */
  function ReadNat(t: Text): (r: Option<Parsed<nat>>)
    ensures r.Some? ==> |r.value.rest| < |t|
  {
    var n := DigitRun(t);
    if n == 0 || (n > 1 && t[0] == ZERO) then None else Some(Parsed(DigitValue(t[..n]), t[n..]))
  }

  function ReadInt(t: Text): (r: Option<Parsed<int>>)
    ensures r.Some? ==> |r.value.rest| < |t|
  {
    if t != [] && t[0] == MINUS then
      match ReadNat(t[1..]) case None => None case Some(p) => var n: int := p.value; Some(Parsed(-n, p.rest))
    else
      match ReadNat(t) case None => None case Some(p) => var n: int := p.value; Some(Parsed(n, p.rest))
  }

  lemma {:induction false} DigitsRoundTrip(n: nat)
    ensures DigitValue(Digits(n)) == n
    ensures n == 0 <==> Digits(n)[0] == ZERO
    ensures n == 0 ==> |Digits(n)| == 1
  {
    if n >= 10 {
      DigitsRoundTrip(n / 10);
      assert Digits(n)[..|Digits(n)| - 1] == Digits(n / 10);
    } else {
      assert [ZERO + n][..0] == [];
    }
  }

  lemma {:induction false} DigitRunOf(a: Text, tail: Text)
    requires (forall u <- a :: IsDigit(u)) && (tail == [] || !IsDigit(tail[0]))
    ensures DigitRun(a + tail) == |a|
  {
    if a == [] {
      assert a + tail == tail;
    } else {
      DigitRunOf(a[1..], tail);
      assert (a + tail)[1..] == a[1..] + tail;
    }
  }

  lemma NatRoundTrip(n: nat, tail: Text)
    requires tail == [] || !IsDigit(tail[0])
    ensures ReadNat(Digits(n) + tail) == Some(Parsed(n, tail))
  {
    var t := Digits(n) + tail;
    DigitRunOf(Digits(n), tail);
    DigitsRoundTrip(n);
    assert t[..|Digits(n)|] == Digits(n) && t[|Digits(n)|..] == tail;
  }

  lemma ReadNegative(t: Text, n: nat, rest: Text)
    requires ReadNat(t) == Some(Parsed(n, rest))
    ensures var m: int := n; ReadInt([MINUS] + t) == Some(Parsed(-m, rest))
  {
    var u := [MINUS] + t;
    assert u[0] == MINUS && u[1..] == t;
  }

  lemma ReadPositive(t: Text, n: nat, rest: Text)
    requires t != [] && IsDigit(t[0]) && ReadNat(t) == Some(Parsed(n, rest))
    ensures ReadInt(t) == Some(Parsed(n, rest))
  {
  }

  /** Reading a printed integer returns it, when no digit follows. */
  lemma IntRoundTrip(n: int, tail: Text)
    requires tail == [] || !IsDigit(tail[0])
    ensures ReadInt(PrintInt(n) + tail) == Some(Parsed(n, tail))
  {
    if n < 0 {
      NegativeRoundTrip(-n, tail);
    } else {
      NatRoundTrip(n, tail);
      FirstDigit(n, tail);
      ReadPositive(Digits(n) + tail, n, tail);
    }
  }

  lemma FirstDigit(n: nat, tail: Text)
    ensures var t := Digits(n) + tail; t != [] && IsDigit(t[0])
  {
    assert (Digits(n) + tail)[0] == Digits(n)[0];
  }

  lemma NegativeRoundTrip(n: nat, tail: Text)
    requires tail == [] || !IsDigit(tail[0])
    ensures var m: int := n; ReadInt([MINUS] + Digits(n) + tail) == Some(Parsed(-m, tail))
  {
    NatRoundTrip(n, tail);
    ReadNegative(Digits(n) + tail, n, tail);
    Assoc([MINUS], Digits(n), tail);
  }

  /** Decimal digits without a superfluous leading zero, and a minus sign before all but zero if any. */
  predicate IsIntText(t: Text) {
    if t != [] && t[0] == MINUS then IsNatText(t[1..]) && t[1] != ZERO else IsNatText(t)
  }

  predicate IsNatText(t: Text) {
    t != [] && (forall u <- t :: IsDigit(u)) && (t[0] == ZERO ==> |t| == 1)
  }

  lemma {:induction false} DigitsAreUnique(t: Text)
    requires IsNatText(t)
    ensures Digits(DigitValue(t)) == t && (t[0] != ZERO ==> DigitValue(t) > 0)
  {
    var front, last := t[..|t| - 1], t[|t| - 1];
    assert IsDigit(last) && t == front + [last];
    if front != [] {
      assert forall u <- front :: u in t;
      DigitsAreUnique(front);
      assert front[0] == t[0] != ZERO;
      assert DigitValue(t) / 10 == DigitValue(front) && DigitValue(t) % 10 == last - ZERO;
    } else {
      assert DigitValue(front) == 0;
    }
  }

  lemma PrintedDigits(n: nat)
    ensures IsNatText(Digits(n)) && DigitValue(Digits(n)) == n && (n > 0 ==> Digits(n)[0] != ZERO)
  {
    DigitsRoundTrip(n);
  }

  /** The text of an integer is its one decimal spelling. */
  lemma PrintedExactly(n: int, t: Text)
    ensures t == PrintInt(n) <==>
      && IsIntText(t)
      && if n < 0 then t[0] == MINUS && DigitValue(t[1..]) == -n else t[0] != MINUS && DigitValue(t) == n
  {
    PrintedDigits(if n < 0 then -n else n);
    if n < 0 {
      assert PrintInt(n)[1..] == Digits(-n);
      if IsIntText(t) && t[0] == MINUS && DigitValue(t[1..]) == -n {
        DigitsAreUnique(t[1..]);
        assert t == [MINUS] + t[1..];
      }
    } else {
      assert IsDigit(Digits(n)[0]);
      if IsIntText(t) && t[0] != MINUS && DigitValue(t) == n {
        DigitsAreUnique(t);
      }
    }
  }
}
