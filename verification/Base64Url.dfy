/** base64url as the policy code builds it from `btoa` and `atob` (sections 4 and 5 of RFC 4648). */
module Base64Url {
  import opened Wrappers
  import opened Bytes

  type Sextet = x: int | 0 <= x < 64

  // ------------------------------------------------------------------ octets and sextets

  /** Three octets become four sextets; one or two left over become two or three, filled with zero bits. */
  function Pack(b: seq<Byte>): seq<Sextet> {
    if b == [] then []
    else if |b| == 1 then [b[0] / 4, b[0] % 4 * 16]
    else if |b| == 2 then [b[0] / 4, b[0] % 4 * 16 + b[1] / 16, b[1] % 16 * 4]
    else [b[0] / 4, b[0] % 4 * 16 + b[1] / 16, b[1] % 16 * 4 + b[2] / 64, b[2] % 64] + Pack(b[3..])
  }

  function First(a: Sextet, b: Sextet): Byte { a as int * 4 + b as int / 16 }

  function Second(b: Sextet, c: Sextet): Byte { b as int % 16 * 16 + c as int / 4 }

  function Third(c: Sextet, d: Sextet): Byte { c as int % 4 * 64 + d as int }

  /** The inverse direction drops the bits that do not fill an octet. */
  function Unpack(x: seq<Sextet>): seq<Byte> {
    if |x| < 2 then []
    else if |x| == 2 then [First(x[0], x[1])]
    else if |x| == 3 then [First(x[0], x[1]), Second(x[1], x[2])]
    else [First(x[0], x[1]), Second(x[1], x[2]), Third(x[2], x[3])] + Unpack(x[4..])
  }

  /** The dropped bits are zero. */
  predicate ZeroFilled(x: seq<Sextet>) {
    && (|x| % 4 == 2 ==> x[|x| - 1] % 16 == 0)
    && (|x| % 4 == 3 ==> x[|x| - 1] % 4 == 0)
  }

  /** Each octet is recovered from the two sextets that share its bits; `b` and `c` may be zero fill. */
  lemma OctetsReturn(a: Byte, b: Byte, c: Byte)
    ensures First(a / 4, a % 4 * 16 + b / 16) == a
    ensures Second(a % 4 * 16 + b / 16, b % 16 * 4 + c / 64) == b
    ensures Third(b % 16 * 4 + c / 64, c % 64) == c
  {
    assert (a % 4 * 16 + b / 16) / 16 == a % 4 && (a % 4 * 16 + b / 16) % 16 == b / 16;
    assert (b % 16 * 4 + c / 64) / 4 == b % 16 && (b % 16 * 4 + c / 64) % 4 == c / 64;
  }

  lemma {:induction false} PackLength(b: seq<Byte>)
    ensures |Pack(b)| == (4 * |b| + 2) / 3 && |Pack(b)| % 4 != 1
  {
    if |b| > 2 {
      PackLength(b[3..]);
    }
  }

  lemma UnpackQuad(p: Sextet, q: Sextet, r: Sextet, s: Sextet, x: seq<Sextet>)
    ensures Unpack([p, q, r, s] + x) == [First(p, q), Second(q, r), Third(r, s)] + Unpack(x)
  {
    var y := [p, q, r, s] + x;
    assert y[4..] == x && y[0] == p && y[1] == q && y[2] == r && y[3] == s;
  }

  lemma {:induction false} UnpackInvertsPack(b: seq<Byte>)
    ensures Unpack(Pack(b)) == b
  {
    if |b| > 2 {
      var rest := b[3..];
      UnpackInvertsPack(rest);
      OctetsReturn(b[0], b[1], b[2]);
      UnpackQuad(b[0] / 4, b[0] % 4 * 16 + b[1] / 16, b[1] % 16 * 4 + b[2] / 64, b[2] % 64, Pack(rest));
      assert b == [b[0], b[1], b[2]] + rest;
    } else if |b| == 1 {
      OctetsReturn(b[0], 0, 0);
      assert b == [b[0]];
    } else if |b| == 2 {
      OctetsReturn(b[0], b[1], 0);
      assert b == [b[0], b[1]];
    }
  }

  lemma FirstBits(a: Sextet, b: Sextet)
    ensures First(a, b) / 4 == a && First(a, b) % 4 == b / 16
  {
  }

  lemma SecondBits(b: Sextet, c: Sextet)
    ensures Second(b, c) / 16 == b % 16 && Second(b, c) % 16 == c / 4
  {
  }

  lemma ThirdBits(c: Sextet, d: Sextet)
    ensures Third(c, d) / 64 == c % 4 && Third(c, d) % 64 == d
  {
  }

  lemma QuadRoundTrip(a: Sextet, b: Sextet, c: Sextet, d: Sextet, rest: seq<Byte>)
    ensures Pack([First(a, b), Second(b, c), Third(c, d)] + rest) == [a, b, c, d] + Pack(rest)
  {
    FirstBits(a, b);
    SecondBits(b, c);
    ThirdBits(c, d);
    assert ([First(a, b), Second(b, c), Third(c, d)] + rest)[3..] == rest;
  }

  lemma FillBits(x: Sextet)
    ensures x / 16 * 16 == x <==> x % 16 == 0
    ensures x / 4 * 4 == x <==> x % 4 == 0
    ensures x / 16 * 16 + x % 16 == x
  {
  }

  lemma PackOne(p: Byte, a: Sextet, b: Sextet)
    requires p / 4 == a && p % 4 == b / 16
    ensures Pack([p]) == [a, b / 16 * 16]
  {
  }

  lemma PackTwo(p: Byte, q: Byte, a: Sextet, b: Sextet, c: Sextet)
    requires p / 4 == a && p % 4 == b / 16 && q / 16 == b % 16 && q % 16 == c / 4
    ensures Pack([p, q]) == [a, b, c / 4 * 4]
  {
    FillBits(b);
  }

  lemma LastTells(x: seq<Sextet>, y: seq<Sextet>)
    requires x != [] && |x| == |y| && x[..|x| - 1] == y[..|x| - 1]
    ensures y == x <==> y[|x| - 1] == x[|x| - 1]
  {
    assert x == x[..|x| - 1] + [x[|x| - 1]] && y == y[..|x| - 1] + [y[|x| - 1]];
  }

  /** Two or three sextets at the end come back exactly when their fill bits are zero. */
  lemma TailOfTwo(x: seq<Sextet>, b: seq<Byte>)
    requires |x| == 2 && b == Unpack(x)
    ensures Pack(b) == x <==> x[1] % 16 == 0
  {
    FirstBits(x[0], x[1]);
    PackOne(b[0], x[0], x[1]);
    assert b == [b[0]];
    LastTells(x, [x[0], x[1] / 16 * 16]);
    FillBits(x[1]);
  }

  lemma TailOfThree(x: seq<Sextet>, b: seq<Byte>)
    requires |x| == 3 && b == Unpack(x)
    ensures Pack(b) == x <==> x[2] % 4 == 0
  {
    FirstBits(x[0], x[1]);
    SecondBits(x[1], x[2]);
    PackTwo(b[0], b[1], x[0], x[1], x[2]);
    assert b == [b[0], b[1]];
    LastTells(x, [x[0], x[1], x[2] / 4 * 4]);
    FillBits(x[2]);
  }

  lemma ZeroFilledTail(x: seq<Sextet>)
    requires |x| > 4
    ensures |x[4..]| % 4 == |x| % 4
    ensures ZeroFilled(x) <==> ZeroFilled(x[4..])
  {
    assert x[4..][|x| - 5] == x[|x| - 1];
  }

  lemma {:induction false} UnpackLength(x: seq<Sextet>)
    requires |x| % 4 != 1
    ensures |Unpack(x)| == |x| * 3 / 4
  {
    if |x| > 4 {
      ZeroFilledTail(x);
      UnpackLength(x[4..]);
    }
  }

  lemma PrefixCancels<T>(a: seq<T>, b: seq<T>, c: seq<T>)
    ensures a + b == a + c <==> b == c
  {
    if a + b == a + c {
      assert (a + b)[|a|..] == b && (a + c)[|a|..] == c;
    }
  }

  lemma {:induction false} PackInvertsUnpackExactly(x: seq<Sextet>)
    requires |x| % 4 != 1
    ensures Pack(Unpack(x)) == x <==> ZeroFilled(x)
  {
    if |x| >= 4 {
      var quad, rest := [x[0], x[1], x[2], x[3]], x[4..];
      assert x == quad + rest;
      QuadRoundTrip(x[0], x[1], x[2], x[3], Unpack(rest));
      if |x| > 4 {
        ZeroFilledTail(x);
        PackInvertsUnpackExactly(rest);
        PrefixCancels(quad, Pack(Unpack(rest)), rest);
      }
    } else if |x| == 2 {
      TailOfTwo(x, Unpack(x));
    } else if |x| == 3 {
      TailOfThree(x, Unpack(x));
    }
  }

  // ------------------------------------------------------------------ alphabets

  /** The base64 alphabet, whose last two characters base64url replaces. */
  function Char64(x: Sextet): char {
    if x < 26 then 'A' + x as char
    else if x < 52 then 'a' + (x - 26) as char
    else if x < 62 then '0' + (x - 52) as char
    else if x == 62 then '+'
    else '/'
  }

  function Value64(c: char): Option<Sextet> {
    if 'A' <= c <= 'Z' then Some((c - 'A') as int)
    else if 'a' <= c <= 'z' then Some((c - 'a') as int + 26)
    else if '0' <= c <= '9' then Some((c - '0') as int + 52)
    else if c == '+' then Some(62)
    else if c == '/' then Some(63)
    else None
  }

  /** /^[A-Za-z0-9_-]*$/ */
  predicate IsUrlText(s: string) {
    forall c <- s :: 'A' <= c <= 'Z' || 'a' <= c <= 'z' || '0' <= c <= '9' || c == '_' || c == '-'
  }

  predicate IsBase64Text(s: string) {
    forall c <- s :: Value64(c).Some?
  }

  function Letters(x: seq<Sextet>): (s: string)
    ensures |s| == |x|
  {
    seq(|x|, i requires 0 <= i < |x| => Char64(x[i]))
  }

  function Sextets(s: string): (x: seq<Sextet>)
    requires IsBase64Text(s)
    ensures |x| == |s|
  {
    seq(|s|, i requires 0 <= i < |s| => assert s[i] in s; Value64(s[i]).value)
  }

  function ReplaceAll(s: string, from: char, to: char): (r: string)
    ensures |r| == |s| && forall i | 0 <= i < |s| :: r[i] == if s[i] == from then to else s[i]
  {
    seq(|s|, i requires 0 <= i < |s| => if s[i] == from then to else s[i])
  }

  function Repeat(c: char, n: nat): (r: string)
    ensures |r| == n && forall d <- r :: d == c
  {
    seq(n, _ => c)
  }

  // ------------------------------------------------------------------ btoa and atob

  /** `btoa`: the letters, padded with '=' to a multiple of four. */
  function Btoa(b: seq<Byte>): string {
    Letters(Pack(b)) + Repeat('=', (3 - |b| % 3) % 3)
  }

  function DropPadding(t: string, most: nat): string {
    if most > 0 && t != [] && t[|t| - 1] == '=' then DropPadding(t[..|t| - 1], most - 1) else t
  }

  /** `atob`: None where it throws. Text of a length divisible by four loses at most two '=' first. */
  function Atob(t: string): Option<seq<Byte>> {
    var u := if |t| % 4 == 0 then DropPadding(t, 2) else t;
    if |u| % 4 == 1 || !IsBase64Text(u) then None else Some(Unpack(Sextets(u)))
  }

  // ------------------------------------------------------------------ the two functions

  function StripTrailing(s: string, c: char): string {
    if s != [] && s[|s| - 1] == c then StripTrailing(s[..|s| - 1], c) else s
  }

  function PadEnd(s: string, n: nat, c: char): string {
    if |s| < n then s + Repeat(c, n - |s|) else s
  }

  function Encode(b: seq<Byte>): string {
    StripTrailing(ReplaceAll(ReplaceAll(Btoa(b), '+', '-'), '/', '_'), '=')
  }

  /** Math.ceil(n / 4) * 4 */
  function RoundUp4(n: nat): nat {
    (n + 3) / 4 * 4
  }

  function Padded(s: string): string {
    PadEnd(ReplaceAll(ReplaceAll(s, '-', '+'), '_', '/'), RoundUp4(|s|), '=')
  }

  function Decode(s: string): Option<seq<Byte>> {
    if !IsUrlText(s) then None else Atob(Padded(s))
  }

  // ------------------------------------------------------------------ properties

  lemma CharRoundTrip(x: Sextet)
    ensures Value64(Char64(x)) == Some(x)
  {
  }

  lemma ValueRoundTrip(c: char)
    requires Value64(c).Some?
    ensures Char64(Value64(c).value) == c
  {
  }

  lemma LettersRoundTrip(x: seq<Sextet>)
    ensures IsBase64Text(Letters(x)) && Sextets(Letters(x)) == x
  {
    forall i | 0 <= i < |x| ensures Value64(Letters(x)[i]) == Some(x[i]) {
      CharRoundTrip(x[i]);
    }
  }

  lemma SextetsRoundTrip(s: string)
    requires IsBase64Text(s)
    ensures Letters(Sextets(s)) == s
  {
    forall i | 0 <= i < |s| ensures Letters(Sextets(s))[i] == s[i] {
      assert s[i] in s;
      ValueRoundTrip(s[i]);
    }
  }

  lemma {:induction false} StripExactly(s: string, n: nat, c: char)
    requires c !in s
    ensures StripTrailing(s + Repeat(c, n), c) == s
  {
    if n == 0 {
      assert s + Repeat(c, n) == s;
      assert s != [] ==> s[|s| - 1] in s;
    } else {
      assert (s + Repeat(c, n))[..|s| + n - 1] == s + Repeat(c, n - 1);
      StripExactly(s, n - 1, c);
    }
  }

  lemma {:induction false} DropExactly(s: string, n: nat, c: nat)
    requires '=' !in s && n <= c
    ensures DropPadding(s + Repeat('=', n), c) == s
  {
    if n == 0 {
      assert s + Repeat('=', n) == s;
      assert s != [] ==> s[|s| - 1] in s;
    } else {
      assert (s + Repeat('=', n))[..|s| + n - 1] == s + Repeat('=', n - 1);
      DropExactly(s, n - 1, c - 1);
    }
  }

  function ToUrl(s: string): string {
    ReplaceAll(ReplaceAll(s, '+', '-'), '/', '_')
  }

  function FromUrl(s: string): string {
    ReplaceAll(ReplaceAll(s, '-', '+'), '_', '/')
  }

  /** Encoding strips exactly the padding: what is left are the letters, in the URL alphabet. */
  lemma EncodeIsLetters(b: seq<Byte>)
    ensures Encode(b) == ToUrl(Letters(Pack(b)))
    ensures IsUrlText(Encode(b))
  {
    var letters, n := Letters(Pack(b)), (3 - |b| % 3) % 3;
    LettersRoundTrip(Pack(b));
    assert ToUrl(Btoa(b)) == ToUrl(letters) + Repeat('=', n);
    forall c <- ToUrl(letters) ensures c != '=' && IsUrlText([c]) {
      var i :| 0 <= i < |letters| && ToUrl(letters)[i] == c;
      assert letters[i] in letters;
    }
    StripExactly(ToUrl(letters), n, '=');
    forall c <- ToUrl(letters) ensures 'A' <= c <= 'Z' || 'a' <= c <= 'z' || '0' <= c <= '9' || c == '_' || c == '-' {
      assert IsUrlText([c]) && c in [c];
    }
  }

  lemma UrlRoundTrip(s: string)
    ensures IsBase64Text(s) ==> FromUrl(ToUrl(s)) == s
    ensures IsUrlText(s) ==> IsBase64Text(FromUrl(s)) && ToUrl(FromUrl(s)) == s
  {
    if IsBase64Text(s) {
      forall i | 0 <= i < |s| ensures FromUrl(ToUrl(s))[i] == s[i] {
        assert s[i] in s;
      }
    }
    if IsUrlText(s) {
      forall i | 0 <= i < |s| ensures Value64(FromUrl(s)[i]).Some? && ToUrl(FromUrl(s))[i] == s[i] {
        assert s[i] in s;
      }
    }
  }

  lemma PadCount(n: nat)
    ensures RoundUp4((4 * n + 2) / 3) - (4 * n + 2) / 3 == (3 - n % 3) % 3
  {
    var q, r := n / 3, n % 3;
    if r == 0 {
      assert 4 * n + 2 == 3 * (4 * q) + 2;
    } else if r == 1 {
      assert 4 * n + 2 == 3 * (4 * q + 2);
    } else {
      assert 4 * n + 2 == 3 * (4 * q + 3) + 1;
    }
  }

  lemma LettersOfEncoding(b: seq<Byte>)
    ensures FromUrl(Encode(b)) == Letters(Pack(b)) && |Encode(b)| == |Letters(Pack(b))| == (4 * |b| + 2) / 3
  {
    EncodeIsLetters(b);
    LettersRoundTrip(Pack(b));
    UrlRoundTrip(Letters(Pack(b)));
    PackLength(b);
  }

  /** The padding recomputed from the length alone is the padding that encoding removed. */
  lemma PaddingIsRecomputed(b: seq<Byte>)
    ensures Padded(Encode(b)) == Btoa(b)
  {
    var letters := Letters(Pack(b));
    LettersOfEncoding(b);
    PadCount(|b|);
    PadEndExactly(letters, (3 - |b| % 3) % 3);
    PaddedFromUrl(Encode(b));
  }

  lemma PaddedFromUrl(s: string)
    ensures Padded(s) == PadEnd(FromUrl(s), RoundUp4(|s|), '=')
  {
  }

  lemma PadEndExactly(letters: string, n: nat)
    requires RoundUp4(|letters|) - |letters| == n
    ensures PadEnd(letters, RoundUp4(|letters|), '=') == letters + Repeat('=', n)
  {
    assert Repeat('=', 0) == [];
  }

  lemma NoPaddingInside(s: string)
    requires IsUrlText(s)
    ensures IsBase64Text(FromUrl(s)) && '=' !in FromUrl(s)
  {
    UrlRoundTrip(s);
    assert Value64('=') == None;
  }

  /** One sextet left over: three '=' are added, two are dropped, and the one left is no letter. */
  lemma LeftoverSextet(t: string, p: string)
    requires '=' !in t && |t| % 4 == 1 && p == t + Repeat('=', 3)
    ensures Atob(p) == None
  {
    var u := t + Repeat('=', 1);
    var v := t + Repeat('=', 2);
    assert p[..|t| + 2] == v && v[..|t| + 1] == u;
    assert DropPadding(v, 1) == DropPadding(u, 0) == u;
    assert DropPadding(p, 2) == u;
    assert u[|t|] == '=' && u[|t|] in u;
  }

  /** What decoding computes: the sextets of the text, unpacked, unless one sextet is left over. */
  lemma DecodeIsUnpack(s: string)
    ensures Decode(s).Some? <==> IsUrlText(s) && |s| % 4 != 1
    ensures Decode(s).Some? ==> IsBase64Text(FromUrl(s)) && Decode(s).value == Unpack(Sextets(FromUrl(s)))
  {
    if IsUrlText(s) {
      var t, n := FromUrl(s), RoundUp4(|s|) - |s|;
      NoPaddingInside(s);
      assert Padded(s) == t + Repeat('=', n);
      if n <= 2 {
        DropExactly(t, n, 2);
      } else {
        LeftoverSextet(t, Padded(s));
      }
    }
  }

  /** Decoding an encoding returns the octets; the text is URL-safe and has length ceil(4n/3). */
  lemma DecodeInvertsEncode(b: seq<Byte>)
    ensures Decode(Encode(b)) == Some(b)
    ensures |Encode(b)| == (4 * |b| + 2) / 3
    ensures '+' !in Encode(b) && '/' !in Encode(b) && '=' !in Encode(b)
  {
    EncodeIsLetters(b);
    UnpackInvertsPack(b);
    PackLength(b);
    LettersRoundTrip(Pack(b));
    UrlRoundTrip(Letters(Pack(b)));
    DecodeIsUnpack(Encode(b));
  }

  /** Of the texts that decode to some octets, exactly the one with zero fill bits is their encoding. */
  lemma EncodeInvertsDecodeExactly(s: string)
    requires IsUrlText(s) && |s| % 4 != 1
    ensures Decode(s).Some?
    ensures IsBase64Text(FromUrl(s))
    ensures Encode(Decode(s).value) == s <==> ZeroFilled(Sextets(FromUrl(s)))
  {
    DecodeIsUnpack(s);
    UrlRoundTrip(s);
    var x := Sextets(FromUrl(s));
    SextetsRoundTrip(FromUrl(s));
    EncodeIsLetters(Unpack(x));
    PackInvertsUnpackExactly(x);
    if Encode(Unpack(x)) == s {
      var y := Pack(Unpack(x));
      LettersRoundTrip(y);
      UrlRoundTrip(Letters(y));
      assert FromUrl(s) == Letters(y);
      assert x == y;
    }
  }

  // ------------------------------------------------------------------ which letters

  /** Octet `n`, and zero beyond the last. */
  function OctetAt(b: seq<Byte>, n: nat): int {
    if n < |b| then b[n] else 0
  }

  function SextetAt(x: seq<Sextet>, n: nat): int {
    if n < |x| then x[n] else 0
  }

  /** The 24 bits of the three octets from `n` on, and those of four sextets, as numbers. */
  function ThreeOctets(b: seq<Byte>, n: nat): int {
    OctetAt(b, n) * 0x1_0000 + OctetAt(b, n + 1) * 0x100 + OctetAt(b, n + 2)
  }

  function FourSextets(x: seq<Sextet>, n: nat): int {
    SextetAt(x, n) * 0x4_0000 + SextetAt(x, n + 1) * 0x1000 + SextetAt(x, n + 2) * 0x40 + SextetAt(x, n + 3)
  }

  lemma OneGroup(a: Byte, b: Byte, c: Byte)
    ensures a * 0x1_0000 + b * 0x100 + c
         == a / 4 * 0x4_0000 + (a % 4 * 16 + b / 16) * 0x1000 + (b % 16 * 4 + c / 64) * 0x40 + c % 64
  {
    assert a == a / 4 * 4 + a % 4 && b == b / 16 * 16 + b % 16 && c == c / 64 * 64 + c % 64;
  }

  lemma FirstGroup(b: seq<Byte>)
    ensures FourSextets(Pack(b), 0) == ThreeOctets(b, 0)
  {
    OneGroup(OctetAt(b, 0), OctetAt(b, 1), OctetAt(b, 2));
  }

  /** The octets after the first group. */
  function Later(b: seq<Byte>): seq<Byte> {
    if |b| > 3 then b[3..] else []
  }

  lemma LaterOctet(b: seq<Byte>, n: nat)
    ensures OctetAt(b, n + 3) == OctetAt(Later(b), n)
  {
  }

  lemma LaterSextet(b: seq<Byte>, n: nat)
    ensures SextetAt(Pack(b), n + 4) == SextetAt(Pack(Later(b)), n)
  {
    if |b| >= 3 {
      assert Pack(b)[4..] == Pack(b[3..]);
      assert n + 4 < |Pack(b)| ==> Pack(b)[n + 4] == Pack(b)[4..][n];
      assert Later(b) == b[3..];
    }
  }

  lemma LaterGroup(b: seq<Byte>, i: nat)
    ensures ThreeOctets(b, i + 3) == ThreeOctets(Later(b), i)
  {
    LaterOctet(b, i);
    LaterOctet(b, i + 1);
    LaterOctet(b, i + 2);
  }

  lemma LaterFour(b: seq<Byte>, i: nat)
    ensures FourSextets(Pack(b), i + 4) == FourSextets(Pack(Later(b)), i)
  {
    LaterSextet(b, i);
    LaterSextet(b, i + 1);
    LaterSextet(b, i + 2);
    LaterSextet(b, i + 3);
  }

  /** Octets and sextets have the same bits, group by group, with zero bits where a group is not full. */
  lemma {:induction false} SameBits(b: seq<Byte>, i: nat)
    ensures FourSextets(Pack(b), 4 * i) == ThreeOctets(b, 3 * i)
    decreases i
  {
    if i == 0 {
      FirstGroup(b);
    } else {
      var j := i - 1;
      assert 3 * i == 3 * j + 3 && 4 * i == 4 * j + 4;
      LaterGroup(b, 3 * j);
      LaterFour(b, 4 * j);
      SameBits(Later(b), j);
    }
  }

  const CAPITALS := "ABCDEFGHIJKLMNOPQRSTUVWXYZ"
  const SMALL := "abcdefghijklmnopqrstuvwxyz"
  const DIGITS := "0123456789"

  /** The letters of the sextets in order (section 5 of RFC 4648). */
  const URL_ALPHABET := CAPITALS + SMALL + DIGITS + "-_"

  lemma CapitalAt(k: nat)
    requires k < 26
    ensures CAPITALS[k] == 'A' + k as char
  {
  }

  lemma SmallAt(k: nat)
    requires k < 26
    ensures SMALL[k] == 'a' + k as char
  {
  }

  lemma DigitAt(k: nat)
    requires k < 10
    ensures DIGITS[k] == '0' + k as char
  {
  }

  lemma PartAt<T>(a: seq<T>, b: seq<T>, n: nat)
    requires n < |a| + |b|
    ensures (a + b)[n] == if n < |a| then a[n] else b[n - |a|]
  {
  }

  function UrlChar(c: char): char {
    if c == '+' then '-' else if c == '/' then '_' else c
  }

  lemma LetterOf(x: Sextet)
    ensures URL_ALPHABET[x] == UrlChar(Char64(x))
  {
    PartAt(CAPITALS + SMALL + DIGITS, "-_", x);
    if x < 62 {
      PartAt(CAPITALS + SMALL, DIGITS, x);
      if x < 26 {
        CapitalAt(x);
      } else if x < 52 {
        SmallAt(x - 26);
      } else {
        DigitAt(x - 52);
      }
    }
  }

  /** Each sextet is written as its letter of the alphabet; with `SameBits`, which text the octets become. */
  lemma EncodeSpells(b: seq<Byte>)
    ensures |Encode(b)| == |Pack(b)| && forall i | 0 <= i < |Pack(b)| :: Encode(b)[i] == URL_ALPHABET[Pack(b)[i]]
  {
    EncodeIsLetters(b);
    forall i | 0 <= i < |Pack(b)| ensures Encode(b)[i] == URL_ALPHABET[Pack(b)[i]] {
      LetterOf(Pack(b)[i]);
    }
  }
}
