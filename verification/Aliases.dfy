/** HPC aliases and the character classes used by several components. */
module Aliases {
  import opened Wrappers

  predicate IsDigit(c: char) { '0' <= c <= '9' }

  predicate IsWordChar(c: char) {
    'a' <= c <= 'z' || 'A' <= c <= 'Z' || IsDigit(c) || c == '_' || c == '-'
  }

  /** /^[a-z0-9_-]{1,64}$/i */
  predicate IsAlias(s: string) {
    1 <= |s| <= 64 && forall c <- s :: IsWordChar(c)
  }

  function LowerChar(c: char): char {
    if 'A' <= c <= 'Z' then c - 'A' + 'a' else c
  }

  function Lower(s: string): string {
    seq(|s|, i requires 0 <= i < |s| => LowerChar(s[i]))
  }

  /** `normalizeAlias`; None for anything that is not an alias. */
  function NormalizeAlias(s: Option<string>): Option<string> {
    if s.Some? && IsAlias(s.value) then Some(Lower(s.value)) else None
  }

  predicate SameButCase(c: char, d: char) {
    c == d || ('A' <= c <= 'Z' && d == c - 'A' + 'a') || ('A' <= d <= 'Z' && c == d - 'A' + 'a')
  }

  /** Two texts have one lower-case form exactly when they differ in the case of ASCII letters only, and that
      form has no upper-case letter. */
  lemma LowerFoldsCase(s: string, t: string)
    ensures Lower(s) == Lower(t) <==> |s| == |t| && forall i | 0 <= i < |s| :: SameButCase(s[i], t[i])
    ensures |Lower(s)| == |s|
    ensures forall i | 0 <= i < |s| :: SameButCase(s[i], Lower(s)[i]) && !('A' <= Lower(s)[i] <= 'Z')
  {
    if Lower(s) == Lower(t) {
      assert |s| == |Lower(s)| == |t|;
      forall i | 0 <= i < |s| ensures SameButCase(s[i], t[i]) {
        assert Lower(s)[i] == Lower(t)[i];
      }
    }
  }

  /** An alias is normalised to its lower-case form, and nothing but an alias is: 1 to 64 ASCII letters, digits,
      underscores and hyphens. */
  lemma NormalizedExactly(s: Option<string>)
    ensures NormalizeAlias(s).Some? <==>
      && s.Some? && 1 <= |s.value| <= 64
      && forall i | 0 <= i < |s.value| ::
        var c := s.value[i]; 'a' <= c <= 'z' || 'A' <= c <= 'Z' || '0' <= c <= '9' || c == '_' || c == '-'
    ensures NormalizeAlias(s).Some? ==> NormalizeAlias(s).value == Lower(s.value)
  {
    if s.Some? && 1 <= |s.value| <= 64 {
      assert forall i | 0 <= i < |s.value| :: s.value[i] in s.value;
    }
  }

  lemma LowerIsStable(s: string)
    ensures Lower(Lower(s)) == Lower(s)
    ensures IsAlias(s) ==> IsAlias(Lower(s))
  {
    if IsAlias(s) {
      forall c <- Lower(s) ensures IsWordChar(c) {
        var i :| 0 <= i < |s| && Lower(s)[i] == c;
        assert s[i] in s;
      }
    }
  }
}
