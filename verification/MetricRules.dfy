/** Which label names and values the metrics registry accepts. */
module MetricRules {
  import opened JsonText

  function Ascii(s: string): (t: Text)
    ensures |t| == |s|
  {
    seq(|s|, i requires 0 <= i < |s| => s[i] as int % 0x80)
  }

  /** The i flag of a pattern, as far as its ASCII letters go. */
  function FoldUnit(u: Unit): Unit {
    if 'A' as int <= u <= 'Z' as int then u + 32 else u
  }

  function Folded(t: Text): (r: Text)
    ensures |r| == |t| && forall i | 0 <= i < |t| :: r[i] == FoldUnit(t[i])
  {
    seq(|t|, i requires 0 <= i < |t| => FoldUnit(t[i]))
  }

  /** The word `w` stands in `t` at `i`. */
  predicate At(t: Text, i: nat, w: Text) {
    i + |w| <= |t| && forall k | 0 <= k < |w| :: t[i + k] == w[k]
  }

  predicate Contains(t: Text, w: Text) {
    exists i: nat | i <= |t| :: At(t, i, w)
  }

  // ------------------------------------------------------------------ names

  const FORBIDDEN_NAMES: seq<string> :=
    ["token", "launchtoken", "relaytoken", "jobreporttoken", "workloadtoken", "tokenfingerprint", "sessionid",
     "promptid", "username", "password", "otp", "privatekey", "passphrase", "transcript", "stdout", "stderr",
     "payload", "prompt", "response", "command"]

  predicate IsNameStart(u: Unit) {
    'a' as int <= FoldUnit(u) <= 'z' as int || u == '_' as int
  }

  /** /^[A-Za-z_][A-Za-z0-9_]{0,63}$/, and no forbidden name in any casing. */
  predicate AllowsName(name: Text) {
    && 1 <= |name| <= 64 && IsNameStart(name[0])
    && (forall u <- name :: IsNameStart(u) || IsDigit(u))
    && forall w <- FORBIDDEN_NAMES :: Folded(name) != Ascii(w)
  }

  // ------------------------------------------------------------------ values

  const TOKEN_PREFIX := "slaif_tok_"
  const PRIVATE := "private"
  const KEY := "key"
  const BEGIN := "begin "
  const PRIVATE_KEY := "private key"

  /** The plain words of the pattern; the two others follow. */
  const FORBIDDEN_WORDS: seq<string> :=
    [TOKEN_PREFIX, "launchtoken", "relaytoken", "jobreporttoken", "workloadtoken", "password", "otp",
     "submitted batch job", "ssh_"]

  /** What `.` does not match. */
  predicate EndsLine(u: Unit) {
    u == 10 || u == 13 || u == 0x2028 || u == 0x2029
  }

  /** /private.?key/ at `i` */
  predicate PrivateKeyAt(t: Text, i: nat) {
    && At(t, i, Ascii(PRIVATE))
    && var j := i + |PRIVATE|;
    && (At(t, j, Ascii(KEY)) || (j < |t| && !EndsLine(t[j]) && At(t, j + 1, Ascii(KEY))))
  }

  predicate LettersOrSpaces(t: Text, i: nat, j: nat) {
    i <= j <= |t| && forall k | i <= k < j :: 'a' as int <= t[k] <= 'z' as int || t[k] == ' ' as int
  }

  /** /BEGIN [A-Z ]*PRIVATE KEY/ from `i`, with the words at `j` */
  predicate KeyBlockAt(t: Text, i: nat, j: nat) {
    At(t, i, Ascii(BEGIN)) && LettersOrSpaces(t, i + |BEGIN|, j) && At(t, j, Ascii(PRIVATE_KEY))
  }

  predicate AllowsValue(value: Text) {
    var t := Folded(value);
    && (forall w <- FORBIDDEN_WORDS :: !Contains(t, Ascii(w)))
    && (forall i: nat | i <= |t| :: !PrivateKeyAt(t, i))
    && forall i: nat, j: nat | i <= |t| && j <= |t| :: !KeyBlockAt(t, i, j)
  }

  /** The last alternative refuses nothing that `private.?key` does not. */
  lemma KeyBlocksArePrivateKeys(t: Text, i: nat, j: nat)
    requires KeyBlockAt(t, i, j)
    ensures PrivateKeyAt(t, j)
  {
    forall k | 0 <= k < |PRIVATE| ensures t[j + k] == Ascii(PRIVATE)[k] {
      assert t[j + k] == Ascii(PRIVATE_KEY)[k] && PRIVATE_KEY[k] == PRIVATE[k];
    }
    var n := |PRIVATE|;
    assert t[j + n] == Ascii(PRIVATE_KEY)[n] && PRIVATE_KEY[n] == ' ';
    forall k | 0 <= k < |KEY| ensures t[j + n + 1 + k] == Ascii(KEY)[k] {
      assert t[j + (n + 1 + k)] == Ascii(PRIVATE_KEY)[n + 1 + k] && PRIVATE_KEY[n + 1 + k] == KEY[k];
    }
  }

  /** A value with a generated token in it, in any casing, is never a label value. */
  lemma TokensAreNeverLabels(front: Text, prefix: Text, end: Text)
    requires Folded(prefix) == Ascii(TOKEN_PREFIX)
    ensures !AllowsValue(front + prefix + end)
  {
    var t := Folded(front + prefix + end);
    forall k | 0 <= k < |prefix| ensures t[|front| + k] == Ascii(TOKEN_PREFIX)[k] {
      assert (front + prefix + end)[|front| + k] == prefix[k];
      assert Folded(prefix)[k] == FoldUnit(prefix[k]);
    }
    assert At(t, |front|, Ascii(TOKEN_PREFIX));
    assert FORBIDDEN_WORDS[0] == TOKEN_PREFIX;
  }

  // ------------------------------------------------------------------ what is accepted

  /** A well-formed name is refused only if it folds to a forbidden one, so a first letter that starts none of
      them lets it pass: `environment`, `mode`, `direction`. */
  lemma OtherNamesPass(name: Text)
    requires 1 <= |name| <= 64 && forall u <- name :: IsNameStart(u) || IsDigit(u)
    requires IsNameStart(name[0]) && forall w <- FORBIDDEN_NAMES :: FoldUnit(name[0]) != w[0] as int % 0x80
    ensures AllowsName(name)
  {
    assert forall w <- FORBIDDEN_NAMES :: w != "" ==> Folded(name)[0] != Ascii(w)[0];
  }

  /** Each forbidden word has one of these four letters. */
  predicate Telltale(c: char) {
    c == 'k' || c == 'p' || c == 'b' || c == 'h'
  }

  predicate HasTelltale(w: string) {
    exists k | 0 <= k < |w| :: Telltale(w[k])
  }

  lemma TelltaleWord(w: string, k: nat)
    requires k < |w| && Telltale(w[k])
    ensures HasTelltale(w)
  {
  }

  lemma TokenWordsAreTelltale()
    ensures HasTelltale(TOKEN_PREFIX) && HasTelltale("launchtoken") && HasTelltale("relaytoken")
    ensures HasTelltale("jobreporttoken") && HasTelltale("workloadtoken")
  {
    TelltaleWord(TOKEN_PREFIX, 8);
    TelltaleWord("launchtoken", 8);
    TelltaleWord("relaytoken", 7);
    TelltaleWord("jobreporttoken", 11);
    TelltaleWord("workloadtoken", 10);
  }

  lemma OtherWordsAreTelltale()
    ensures HasTelltale("password") && HasTelltale("otp") && HasTelltale("submitted batch job") && HasTelltale("ssh_")
  {
    TelltaleWord("password", 0);
    TelltaleWord("otp", 2);
    TelltaleWord("submitted batch job", 2);
    TelltaleWord("ssh_", 2);
  }

  lemma WordsAreTelltale(w: string)
    requires w in FORBIDDEN_WORDS
    ensures HasTelltale(w)
  {
    TokenWordsAreTelltale();
    OtherWordsAreTelltale();
  }

  lemma TelltaleAt(t: Text, i: nat, w: string, k: nat)
    requires At(t, i, Ascii(w)) && k < |w| && Telltale(w[k])
    ensures i + k < |t| && t[i + k] == w[k] as int
  {
    assert t[i + k] == Ascii(w)[k];
  }

  predicate Untelling(t: Text) {
    forall u <- t :: u != 'k' as int && u != 'p' as int && u != 'b' as int && u != 'h' as int
  }

  lemma TelltaleIn(t: Text, i: nat, w: string, k: nat)
    requires At(t, i, Ascii(w)) && k < |w| && Telltale(w[k])
    ensures !Untelling(t)
  {
    TelltaleAt(t, i, w, k);
    assert t[i + k] in t;
  }

  lemma NoTelltale(t: Text, w: string)
    requires Untelling(t) && HasTelltale(w)
    ensures !Contains(t, Ascii(w))
  {
    var k :| 0 <= k < |w| && Telltale(w[k]);
    forall i: nat | i <= |t| ensures !At(t, i, Ascii(w)) {
      if At(t, i, Ascii(w)) {
        TelltaleIn(t, i, w, k);
      }
    }
  }

  /** A value with none of these letters, in either case, is accepted whatever else it holds. */
  lemma OtherValuesPass(value: Text)
    requires Untelling(Folded(value))
    ensures AllowsValue(value)
  {
    var t := Folded(value);
    forall w <- FORBIDDEN_WORDS ensures !Contains(t, Ascii(w)) {
      WordsAreTelltale(w);
      NoTelltale(t, w);
    }
    forall i: nat | i <= |t| ensures !PrivateKeyAt(t, i) {
      NoPrivateKey(t, i);
    }
    forall i: nat, j: nat | i <= |t| && j <= |t| ensures !KeyBlockAt(t, i, j) {
      if KeyBlockAt(t, i, j) {
        KeyBlocksArePrivateKeys(t, i, j);
        NoPrivateKey(t, j);
      }
    }
  }

  lemma NoPrivateKey(t: Text, i: nat)
    requires 'k' as int !in t
    ensures !PrivateKeyAt(t, i)
  {
    if PrivateKeyAt(t, i) {
      var j := i + |PRIVATE|;
      TelltaleAt(t, if At(t, j, Ascii(KEY)) then j else j + 1, KEY, 0);
    }
  }
}
