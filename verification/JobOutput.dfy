/** The scan of scheduler output for a submitted job id, against a line-by-line reading of the same output.
    Output is ASCII, so a character is a byte. */
module JobOutput {
  import opened Aliases

  datatype Verdict = JobId(id: string) | EmptyOutput | NoJobId | AmbiguousJobId

  const SBATCH := "sbatch:"
  const SUBMITTED := "Submitted batch job"

  predicate IsSpace(c: char) {
    c == ' ' || '\t' <= c <= '\r'
  }

  predicate AllSpaces(s: string) {
    SpacesIn(s, 0, |s|)
  }

  /** `u[i..j]` is white space. */
  predicate SpacesIn(u: string, i: nat, j: nat) {
    i <= j <= |u| && forall k | i <= k < j :: IsSpace(u[k])
  }

  predicate DigitsIn(u: string, i: nat, j: nat) {
    i <= j <= |u| && forall k | i <= k < j :: IsDigit(u[k])
  }

  /** The word `w` stands in `u` at `i`. */
  predicate WordAt(u: string, i: nat, w: string) {
    i + |w| <= |u| && forall k | 0 <= k < |w| :: u[i + k] == w[k]
  }

  // ------------------------------------------------------------------ the pattern, declaratively

  /** Where the parts of a match end: the optional `sbatch:` and its spaces, the fixed words, the spaces
      after them, the digits, and the trailing spaces. */
  datatype Split = Split(name: nat, blank: nat, digits: nat, tail: nat, end: nat)

  /** `x` splits a prefix of `u` as the pattern demands; `u` starts where `^` holds. */
  predicate Derives(u: string, x: Split) {
    && (x.name == 0 || (WordAt(u, 0, SBATCH) && SpacesIn(u, |SBATCH|, x.name)))
    && x.blank == x.name + |SUBMITTED| && WordAt(u, x.name, SUBMITTED)
    && x.blank < x.digits && SpacesIn(u, x.blank, x.digits)
    && x.digits < x.tail && DigitsIn(u, x.digits, x.tail)
    && SpacesIn(u, x.tail, x.end)
    && (x.end == |u| || u[x.end] == '\n')
  }

  // ------------------------------------------------------------------ the pattern, as an engine tries it

  /** The end of the run of spaces that starts at `i`. */
  function SpacesEnd(u: string, i: nat): (e: nat)
    requires i <= |u|
    ensures SpacesIn(u, i, e) && (e == |u| || !IsSpace(u[e]))
    decreases |u| - i
  {
    if i < |u| && IsSpace(u[i]) then SpacesEnd(u, i + 1) else i
  }

  function DigitsEnd(u: string, i: nat): (e: nat)
    requires i <= |u|
    ensures DigitsIn(u, i, e) && (e == |u| || !IsDigit(u[e]))
    decreases |u| - i
  {
    if i < |u| && IsDigit(u[i]) then DigitsEnd(u, i + 1) else i
  }

  datatype Found = At(position: nat) | Nowhere

  /** Backing off from `to`: the last newline in `u[from..to]`. */
  function LastNewline(u: string, from: nat, to: nat): (r: Found)
    requires from <= to <= |u|
    ensures r.At? ==> from <= r.position < to && u[r.position] == '\n'
    ensures forall i | from <= i < to && u[i] == '\n' :: r.At? && i <= r.position
  {
    if from == to then Nowhere
    else if u[to - 1] == '\n' then At(to - 1)
    else LastNewline(u, from, to - 1)
  }

  datatype Match = Match(x: Split) | NoMatch

  /** The end of the optional `sbatch:` and its spaces. */
  function HeaderEnd(u: string): (name: nat)
    ensures name <= |u|
  {
    if WordAt(u, 0, SBATCH) then SpacesEnd(u, |SBATCH|) else 0
  }

  /** The match at the start of `u`: every repetition is greedy, and only the last one can give back. */
  function MatchHere(u: string): Match {
    var name := HeaderEnd(u);
    if !WordAt(u, name, SUBMITTED) then NoMatch
    else
      var blank := name + |SUBMITTED|;
      var digits := SpacesEnd(u, blank);
      var tail := DigitsEnd(u, digits);
      var run := SpacesEnd(u, tail);
      if digits == blank || tail == digits then NoMatch
      else if run == |u| then Match(Split(name, blank, digits, tail, run))
      else
        match LastNewline(u, tail, run)
        case At(end) => Match(Split(name, blank, digits, tail, end))
        case Nowhere => NoMatch
  }

  lemma SpacesStop(u: string, i: nat, e: nat)
    requires SpacesIn(u, i, e) && (e == |u| || !IsSpace(u[e]))
    ensures e == SpacesEnd(u, i)
  {
  }

  lemma DigitsStop(u: string, i: nat, e: nat)
    requires DigitsIn(u, i, e) && (e == |u| || !IsDigit(u[e]))
    ensures e == DigitsEnd(u, i)
  {
  }

  lemma FirstLetters(u: string, i: nat)
    ensures WordAt(u, i, SUBMITTED) ==> u[i] == 'S'
    ensures WordAt(u, i, SBATCH) ==> u[i] == 's'
  {
    assert SUBMITTED[0] == 'S' && SBATCH[0] == 's';
    assert WordAt(u, i, SUBMITTED) ==> u[i + 0] == SUBMITTED[0];
    assert WordAt(u, i, SBATCH) ==> u[i + 0] == SBATCH[0];
  }

  lemma HeaderIsForced(u: string, y: Split)
    requires Derives(u, y)
    ensures y.name == HeaderEnd(u)
  {
    FirstLetters(u, y.name);
    FirstLetters(u, 0);
    if y.name != 0 {
      SpacesStop(u, |SBATCH|, y.name);
    }
  }

  /** Any way to derive a match has the engine's parts, except that it may give back more at the end. */
  lemma DerivationIsForced(u: string, y: Split)
    requires Derives(u, y)
    ensures MatchHere(u).Match?
    ensures var x := MatchHere(u).x; y == x.(end := y.end) && y.end <= x.end
  {
    HeaderIsForced(u, y);
    SpacesStop(u, y.blank, y.digits);
    DigitsStop(u, y.digits, y.tail);
    var run := SpacesEnd(u, y.tail);
    assert y.end <= run;
  }

  lemma MatchDerives(u: string)
    requires MatchHere(u).Match?
    ensures Derives(u, MatchHere(u).x)
  {
  }

  /** The engine finds a match exactly when the pattern has one, and finds its id and its longest extent. */
  lemma MatchIsThePattern(u: string)
    ensures MatchHere(u).Match? <==> exists y :: Derives(u, y)
    ensures MatchHere(u).Match? ==> Derives(u, MatchHere(u).x)
    ensures forall y | Derives(u, y) ::
      u[y.digits..y.tail] == Id(u, MatchHere(u).x) && y.end <= MatchHere(u).x.end
  {
    if MatchHere(u).Match? {
      MatchDerives(u);
    }
    forall y | Derives(u, y)
      ensures MatchHere(u).Match? && y == MatchHere(u).x.(end := y.end) && y.end <= MatchHere(u).x.end
    {
      DerivationIsForced(u, y);
    }
  }

  function Id(u: string, x: Split): string {
    if x.digits <= x.tail <= |u| then u[x.digits..x.tail] else ""
  }

  // ------------------------------------------------------------------ all matches

  /** `matchAll`: the ids of the leftmost matches, each search starting where the last match ended. `start`
      says whether `^` holds at the start of `u`. */
  function Scan(u: string, start: bool): seq<string>
    decreases |u|, 1
  {
    if u == "" then []
    else if start && MatchHere(u).Match? then
      MatchDerives(u);
      PastMatch(u, MatchHere(u).x)
    else Scan(u[1..], u[0] == '\n')
  }

  function PastMatch(u: string, x: Split): seq<string>
    requires Derives(u, x)
    decreases |u|, 0
  {
    [Id(u, x)] + Scan(u[x.end..], u[x.end - 1] == '\n')
  }

  function IdHere(u: string): set<string> {
    if MatchHere(u).Match? then {Id(u, MatchHere(u).x)} else {}
  }

  /** The ids of the matches at every line start, overlapping ones included. */
  function AllIds(u: string, start: bool): set<string>
    decreases |u|
  {
    if u == "" then {}
    else (if start then IdHere(u) else {}) + AllIds(u[1..], u[0] == '\n')
  }

  lemma WordHoldsNoNewline(u: string, i: nat, k: nat, w: string)
    requires '\n' !in w && WordAt(u, i, w) && i <= k < i + |w|
    ensures u[k] != '\n'
  {
    assert u[i + (k - i)] == w[k - i];
    assert w[k - i] in w;
  }

  lemma WordsHoldNoNewline(u: string, i: nat, k: nat)
    requires i <= k < |u| && u[k] == '\n'
    ensures WordAt(u, i, SUBMITTED) ==> i + |SUBMITTED| <= k
    ensures WordAt(u, i, SBATCH) ==> i + |SBATCH| <= k
  {
    if WordAt(u, i, SUBMITTED) && k < i + |SUBMITTED| {
      WordHoldsNoNewline(u, i, k, SUBMITTED);
    }
    if WordAt(u, i, SBATCH) && k < i + |SBATCH| {
      WordHoldsNoNewline(u, i, k, SBATCH);
    }
  }

  lemma MatchStarts(v: string)
    requires MatchHere(v).Match?
    ensures v != "" && (v[0] == 'S' || v[0] == 's')
  {
    FirstLetters(v, 0);
    FirstLetters(v, HeaderEnd(v));
  }

  /** A line that starts inside a match and matches is where the words start, after `sbatch:`. */
  lemma InnerStart(u: string, x: Split, i: nat)
    requires Derives(u, x) && 0 < i < x.end && u[i - 1] == '\n' && (u[i] == 'S' || u[i] == 's')
    ensures i == x.name
  {
    if x.name != 0 && i - 1 < x.name {
      WordsHoldNoNewline(u, 0, i - 1);
    } else {
      WordsHoldNoNewline(u, x.name, i - 1);
    }
  }

  /** A line that starts inside a match has no match of its own but the same one without `sbatch:`. */
  lemma InnerMatch(u: string, x: Split, i: nat)
    requires Derives(u, x) && 0 < i < x.end && u[i - 1] == '\n'
    ensures IdHere(u[i..]) <= {Id(u, x)}
  {
    if MatchHere(u[i..]).Match? {
      MatchStarts(u[i..]);
      InnerStart(u, x, i);
      InnerId(u, x, i);
    }
  }

  lemma InnerId(u: string, x: Split, i: nat)
    requires Derives(u, x) && i == x.name
    ensures IdHere(u[i..]) == {Id(u, x)}
  {
    var v, y := u[i..], Split(0, x.blank - i, x.digits - i, x.tail - i, x.end - i);
    SuffixDerives(u, x, i);
    SameId(u, x, i, v, y);
    ForcedId(v, y);
  }

  lemma SameId(u: string, x: Split, i: nat, v: string, y: Split)
    requires i <= x.digits <= x.tail <= |u| && v == u[i..] && y.digits == x.digits - i && y.tail == x.tail - i
    ensures Id(v, y) == Id(u, x)
  {
    assert v[y.digits..y.tail] == u[x.digits..x.tail];
  }

  lemma ForcedId(v: string, y: Split)
    requires Derives(v, y)
    ensures IdHere(v) == {Id(v, y)}
  {
    DerivationIsForced(v, y);
  }

  lemma ShiftSpaces(u: string, i: nat, a: nat, b: nat)
    requires i <= a && SpacesIn(u, a, b)
    ensures SpacesIn(u[i..], a - i, b - i)
  {
    assert forall k | 0 <= k < |u| - i :: u[i..][k] == u[i + k];
  }

  lemma ShiftDigits(u: string, i: nat, a: nat, b: nat)
    requires i <= a && DigitsIn(u, a, b)
    ensures DigitsIn(u[i..], a - i, b - i)
  {
    assert forall k | 0 <= k < |u| - i :: u[i..][k] == u[i + k];
  }

  /** A match less its `sbatch:` part. */
  lemma SuffixDerives(u: string, x: Split, i: nat)
    requires Derives(u, x) && i == x.name
    ensures Derives(u[i..], Split(0, x.blank - i, x.digits - i, x.tail - i, x.end - i))
  {
    ShiftWord(u, i, SUBMITTED);
    ShiftSpaces(u, i, x.blank, x.digits);
    ShiftDigits(u, i, x.digits, x.tail);
    ShiftSpaces(u, i, x.tail, x.end);
    assert x.end < |u| ==> u[i..][x.end - i] == u[x.end];
  }

  lemma ShiftWord(u: string, i: nat, w: string)
    requires WordAt(u, i, w)
    ensures WordAt(u[i..], 0, w)
  {
    forall k | 0 <= k < |w| ensures u[i..][0 + k] == w[k] {
      assert u[i + k] == w[k];
    }
  }

  /** The union of `here` over positions `i` to `n`. */
  function Gathered(here: nat -> set<string>, i: nat, n: nat): set<string>
    decreases n - i
  {
    if i >= n then {} else here(i) + Gathered(here, i + 1, n)
  }

  lemma {:induction false} GatheredSkips(here: nat -> set<string>, i: nat, end: nat, n: nat, id: string)
    requires i <= end <= n && forall k: nat | i <= k < end :: here(k) <= {id}
    ensures Gathered(here, end, n) <= Gathered(here, i, n) <= {id} + Gathered(here, end, n)
    decreases end - i
  {
    if i < end {
      GatheredSkips(here, i + 1, end, n, id);
    }
  }

  /** The id of a match that starts at this position, if a line does. */
  function HereIn(u: string): nat -> set<string> {
    (k: nat) => if 0 < k < |u| && u[k - 1] == '\n' then IdHere(u[k..]) else {}
  }

  lemma {:induction false} AllIdsByPosition(u: string, i: nat)
    requires 0 < i <= |u|
    ensures AllIds(u[i..], u[i - 1] == '\n') == Gathered(HereIn(u), i, |u|)
    decreases |u| - i
  {
    if i < |u| {
      AllIdsByPosition(u, i + 1);
      assert u[i..][1..] == u[i + 1..];
    }
  }

  /** Up to `end` there is nothing but `id`. */
  ghost predicate OnlyInner(here: nat -> set<string>, id: string, end: nat) {
    forall k: nat | 1 <= k < end :: here(k) <= {id}
  }

  lemma InnerMatches(u: string, x: Split)
    requires Derives(u, x)
    ensures OnlyInner(HereIn(u), Id(u, x), x.end)
  {
    forall k: nat | 1 <= k < x.end ensures HereIn(u)(k) <= {Id(u, x)} {
      if u[k - 1] == '\n' {
        InnerMatch(u, x, k);
      }
    }
  }

  function Elements(ids: seq<string>): set<string> {
    set id <- ids
  }

  /** Going on after the end of a match loses no id. */
  lemma {:induction false} ScanFindsAll(u: string, start: bool)
    ensures Elements(Scan(u, start)) == AllIds(u, start)
    decreases |u|, 1
  {
    if u != "" {
      if start && MatchHere(u).Match? {
        MatchDerives(u);
        PastMatchFindsAll(u, MatchHere(u).x);
      } else {
        ScanFindsAll(u[1..], u[0] == '\n');
      }
    }
  }

  lemma PastMatchElements(u: string, x: Split)
    requires Derives(u, x)
    ensures Elements(PastMatch(u, x)) == {Id(u, x)} + Elements(Scan(u[x.end..], u[x.end - 1] == '\n'))
  {
    var ids := Scan(u[x.end..], u[x.end - 1] == '\n');
    assert PastMatch(u, x) == [Id(u, x)] + ids;
    ElementsOf(Id(u, x), ids);
  }

  lemma ElementsOf(id: string, ids: seq<string>)
    ensures Elements([id] + ids) == {id} + Elements(ids)
  {
  }

  lemma {:induction false} PastMatchFindsAll(u: string, x: Split)
    requires Derives(u, x)
    ensures Elements(PastMatch(u, x)) == {Id(u, x)} + AllIds(u[1..], u[0] == '\n')
    decreases |u|, 0
  {
    PastMatchElements(u, x);
    ScanFindsAll(u[x.end..], u[x.end - 1] == '\n');
    SkippedAll(u, x);
  }

  /** Apart from `id`, the ids beyond the first position are those beyond `end`. */
  ghost predicate SameBeyond(u: string, id: string, end: nat) {
    && 0 < end <= |u|
    && {id} + AllIds(u[1..], u[0] == '\n') == {id} + AllIds(u[end..], u[end - 1] == '\n')
  }

  lemma SkippedAll(u: string, x: Split)
    requires Derives(u, x)
    ensures SameBeyond(u, Id(u, x), x.end)
  {
    InnerMatches(u, x);
    SkippedTo(u, Id(u, x), x.end);
  }

  lemma SkippedTo(u: string, id: string, end: nat)
    requires 0 < end <= |u| && OnlyInner(HereIn(u), id, end)
    ensures SameBeyond(u, id, end)
  {
    SkippedGathered(HereIn(u), id, end, |u|);
    AllIdsByPosition(u, 1);
    AllIdsByPosition(u, end);
  }

  lemma SkippedGathered(here: nat -> set<string>, id: string, end: nat, n: nat)
    requires 1 <= end <= n && OnlyInner(here, id, end)
    ensures {id} + Gathered(here, 1, n) == {id} + Gathered(here, end, n)
  {
    GatheredSkips(here, 1, end, n, id);
    SameWith(id, Gathered(here, 1, n), Gathered(here, end, n));
  }

  lemma SameWith(id: string, xs: set<string>, ys: set<string>)
    requires ys <= xs <= {id} + ys
    ensures {id} + xs == {id} + ys
  {
  }

  // ------------------------------------------------------------------ the scanner

  /** The last `maxBytes` bytes. */
  function BoundOutput(output: string, maxBytes: nat): string {
    if |output| <= maxBytes then output else output[|output| - maxBytes..]
  }

  function StripReturns(s: string): string {
    if s == "" then ""
    else if s[0] == '\r' then StripReturns(s[1..])
    else [s[0]] + StripReturns(s[1..])
  }

  /** The distinct ids decide. */
  function VerdictOn(ids: seq<string>): Verdict {
    if ids == [] then NoJobId
    else if exists id <- ids :: id != ids[0] then AmbiguousJobId
    else JobId(ids[0])
  }

  /** `parseSlurmJobSubmission` */
  function ParseSubmission(output: string, maxBytes: nat): Verdict {
    var text := StripReturns(BoundOutput(output, maxBytes));
    if AllSpaces(text) then EmptyOutput
    else
      VerdictOn(Scan(text, true))
  }

  /** `v` is the verdict on output that is blank or not and carries these ids. */
  ghost predicate Fits(v: Verdict, blank: bool, ids: iset<string>) {
    if blank then v == EmptyOutput
    else
      && v != EmptyOutput
      && (v == NoJobId <==> ids == iset{})
      && (v == AmbiguousJobId <==> exists a, b :: a in ids && b in ids && a != b)
      && (forall id :: v == JobId(id) <==> ids == iset{id})
  }

  /** Blankness and the set of ids of the end of the output decide. */
  lemma VerdictBySet(output: string, maxBytes: nat)
    ensures var text := StripReturns(BoundOutput(output, maxBytes));
      Fits(ParseSubmission(output, maxBytes), AllSpaces(text), iset id | id in AllIds(text, true))
  {
    var text := StripReturns(BoundOutput(output, maxBytes));
    var ids := Scan(text, true);
    ScanFindsAll(text, true);
    var all := iset id | id in ids;
    assert all == iset id | id in AllIds(text, true) by {
      assert forall id :: id in ids <==> id in Elements(ids);
    }
    FoundFits(ids);
  }

  lemma FoundFits(ids: seq<string>)
    ensures Fits(VerdictOn(ids), false, iset id | id in ids)
  {
    var all := iset id | id in ids;
    if ids != [] {
      var first := ids[0];
      assert first in all;
      if forall id <- ids :: id == first {
        assert all == iset{first};
      }
      forall id ensures all == iset{id} ==> forall other <- ids :: other == id {
        if all == iset{id} {
          forall other <- ids ensures other == id {
            assert other in all;
          }
        }
      }
    }
  }

  // ------------------------------------------------------------------ line by line

  predicate IsLine(l: string) {
    '\n' !in l
  }

  function Join(lines: seq<string>): string {
    if lines == [] then ""
    else if |lines| == 1 then lines[0]
    else lines[0] + "\n" + Join(lines[1..])
  }

  /** The id a line carries when it is a submission line, read on its own. */
  function LineIds(l: string): set<string> {
    IdHere(l)
  }

  function LinesIds(lines: seq<string>): set<string> {
    if lines == [] then {} else LineIds(lines[0]) + LinesIds(lines[1..])
  }

  /** A line that breaks off within the spaces of the pattern, so that `\s` can run on into the next line:
      `sbatch:` alone, or the fixed words with no id. */
  predicate Dangling(l: string) {
    || (WordAt(l, 0, SBATCH) && SpacesIn(l, |SBATCH|, |l|))
    || (WordAt(l, HeaderEnd(l), SUBMITTED) && SpacesIn(l, HeaderEnd(l) + |SUBMITTED|, |l|))
  }

  lemma {:induction false} IdsAfterLine(l: string, v: string)
    requires IsLine(l)
    ensures AllIds(l + "\n" + v, false) == AllIds(v, true)
  {
    var u := l + "\n" + v;
    if l == "" {
      assert u[1..] == v;
    } else {
      IdsAfterLine(l[1..], v);
      assert u[1..] == l[1..] + "\n" + v;
    }
  }

  lemma IdsOfFirstLine(l: string, v: string)
    requires IsLine(l)
    ensures AllIds(l + "\n" + v, true) == IdHere(l + "\n" + v) + AllIds(v, true)
  {
    IdsAfterLine(l, v);
  }

  lemma {:induction false} IdsWithin(l: string)
    requires IsLine(l)
    ensures AllIds(l, false) == {}
  {
    if l != "" {
      IdsWithin(l[1..]);
    }
  }

  lemma IdsOfLastLine(l: string)
    requires IsLine(l)
    ensures AllIds(l, true) == LineIds(l)
  {
    if l != "" {
      IdsWithin(l[1..]);
    }
  }

  lemma PrefixDerives(l: string, u: string, x: Split)
    requires |l| < |u| && u[..|l|] == l && u[|l|] == '\n' && Derives(l, x) && x.end == |l|
    ensures Derives(u, x)
  {
    assert forall k | 0 <= k < |l| :: u[k] == l[k];
  }

  /** A match on a line alone is a match on it in context. */
  lemma LineMatchExtends(l: string, v: string)
    requires IsLine(l) && MatchHere(l).Match?
    ensures IdHere(l + "\n" + v) == LineIds(l)
  {
    MatchDerives(l);
    var x, u := MatchHere(l).x, l + "\n" + v;
    assert u[..|l|] == l;
    PrefixDerives(l, u, x);
    ForcedId(l, x);
    ForcedId(u, x);
    PrefixId(l, u, x);
  }

  lemma PrefixId(l: string, u: string, x: Split)
    requires |l| < |u| && u[..|l|] == l && x.digits <= x.tail <= |l|
    ensures Id(u, x) == Id(l, x)
  {
    assert u[..|l|][x.digits..x.tail] == u[x.digits..x.tail];
  }

  /** A derivation in context whose words end within the line. */
  lemma HeaderInLine(l: string, u: string, x: Split)
    requires IsLine(l) && |l| < |u| && u[..|l|] == l && u[|l|] == '\n' && Derives(u, x) && !Dangling(l)
    ensures x.blank <= |l|
  {
    assert forall k | 0 <= k < |l| :: u[k] == l[k];
    FirstLetters(u, x.name);
    if x.name != 0 {
      WordsHoldNoNewline(u, 0, |l|);
    }
    WordsHoldNoNewline(u, if x.name <= |l| then x.name else 0, |l|);
  }

  lemma DigitsInLine(l: string, u: string, x: Split)
    requires IsLine(l) && |l| < |u| && u[..|l|] == l && u[|l|] == '\n' && Derives(u, x) && !Dangling(l)
    ensures x.tail <= |l| && Derives(l, x.(end := |l|))
  {
    HeaderInLine(l, u, x);
    assert forall k | 0 <= k < |l| :: u[k] == l[k];
    FirstLetters(u, 0);
    FirstLetters(u, x.name);
    if x.name != 0 {
      SpacesStop(l, |SBATCH|, x.name);
    }
    assert HeaderEnd(l) == x.name && WordAt(l, x.name, SUBMITTED);
    assert x.digits <= |l|;
    assert !IsDigit(u[|l|]);
  }

  /** A match in context lies within its line, unless the line dangles. */
  lemma MatchStaysInLine(l: string, v: string)
    requires IsLine(l) && MatchHere(l + "\n" + v).Match? && !Dangling(l)
    ensures MatchHere(l).Match?
  {
    var u := l + "\n" + v;
    assert u[..|l|] == l;
    MatchDerives(u);
    DigitsInLine(l, u, MatchHere(u).x);
    DerivationIsForced(l, MatchHere(u).x.(end := |l|));
  }

  /** A line that does not dangle is read the same way whatever follows it. */
  lemma LineStandsAlone(l: string, v: string)
    requires IsLine(l) && !Dangling(l)
    ensures IdHere(l + "\n" + v) == LineIds(l)
  {
    if MatchHere(l).Match? {
      LineMatchExtends(l, v);
    } else if MatchHere(l + "\n" + v).Match? {
      MatchStaysInLine(l, v);
    }
  }

  lemma {:induction false} IdsByLine(lines: seq<string>)
    requires forall l <- lines :: IsLine(l)
    requires forall i | 0 <= i < |lines| - 1 :: !Dangling(lines[i])
    ensures AllIds(Join(lines), true) == LinesIds(lines)
  {
    if |lines| == 1 {
      IdsOfLastLine(lines[0]);
      assert LinesIds(lines[1..]) == {};
    } else if |lines| > 1 {
      IdsOfFirstLine(lines[0], Join(lines[1..]));
      LineStandsAlone(lines[0], Join(lines[1..]));
      IdsByLine(lines[1..]);
    }
  }

  const LATE_WORDS := " " + SUBMITTED + " 7"

  lemma LateWords()
    ensures IsLine(LATE_WORDS) && LineIds(LATE_WORDS) == {}
  {
    if MatchHere(LATE_WORDS).Match? {
      MatchStarts(LATE_WORDS);
    }
  }

  lemma HeaderAlone(l: string)
    requires WordAt(l, 0, SBATCH) && SpacesIn(l, |SBATCH|, |l|)
    ensures LineIds(l) == {}
  {
    SpacesStop(l, |SBATCH|, |l|);
  }

  lemma LateWordsAt(u: string, i: nat)
    requires i + |LATE_WORDS| == |u| && u[i..] == LATE_WORDS
    ensures IsSpace(u[i]) && WordAt(u, i + 1, SUBMITTED) && u[|u| - 2] == ' ' && u[|u| - 1] == '7'
  {
    assert forall k | 0 <= k < |LATE_WORDS| :: LATE_WORDS[k] == u[i + k];
    forall k | 0 <= k < |SUBMITTED| ensures u[i + 1 + k] == SUBMITTED[k] {
      assert LATE_WORDS[1 + k] == SUBMITTED[k];
      assert LATE_WORDS[1 + k] == u[i + (1 + k)];
    }
  }

  lemma HeaderRunsOn(l: string)
    requires WordAt(l, 0, SBATCH) && SpacesIn(l, |SBATCH|, |l|)
    ensures IdHere(l + "\n" + LATE_WORDS) == {"7"}
  {
    var u, n := l + "\n" + LATE_WORDS, |l| + 2;
    LateWordsAt(u, |l| + 1);
    assert u[..|l|] == l && u[|l|] == '\n';
    LateDerivation(l, u);
    LastDigit(u, Split(n, n + |SUBMITTED|, |u| - 1, |u|, |u|));
  }

  lemma LastDigit(u: string, y: Split)
    requires Derives(u, y) && y.digits + 1 == y.tail == |u| && u[|u| - 1] == '7'
    ensures IdHere(u) == {"7"}
  {
    ForcedId(u, y);
    assert u[y.digits..y.tail] == "7";
  }

  lemma LateDerivation(l: string, u: string)
    requires WordAt(l, 0, SBATCH) && SpacesIn(l, |SBATCH|, |l|)
    requires |u| == |l| + 1 + |LATE_WORDS| && u[..|l|] == l && u[|l|] == '\n'
    requires IsSpace(u[|l| + 1]) && WordAt(u, |l| + 2, SUBMITTED) && u[|u| - 2] == ' ' && u[|u| - 1] == '7'
    ensures var n := |l| + 2; Derives(u, Split(n, n + |SUBMITTED|, |u| - 1, |u|, |u|))
  {
    assert forall k | 0 <= k < |l| :: u[k] == l[k];
  }

  lemma WordsRunOn(l: string)
    requires WordAt(l, HeaderEnd(l), SUBMITTED) && SpacesIn(l, HeaderEnd(l) + |SUBMITTED|, |l|)
    ensures IdHere(l + "\n" + "7") == {"7"} && LineIds(l) == {} && LineIds("7") == {}
  {
    var u, n := l + "\n" + "7", HeaderEnd(l);
    assert forall k | 0 <= k < |l| :: u[k] == l[k];
    var y := Split(n, n + |SUBMITTED|, |l| + 1, |u|, |u|);
    assert WordAt(u, n, SUBMITTED);
    LastDigit(u, y);
    FirstLetters("7", 0);
    SpacesStop(l, n + |SUBMITTED|, |l|);
  }

  /** A dangling line can take its id from a next line that is not a submission line. */
  lemma DanglingLineRunsOn(l: string) returns (next: string)
    requires IsLine(l) && Dangling(l)
    ensures IsLine(next) && AllIds(l + "\n" + next, true) != LineIds(l) + LineIds(next)
  {
    if WordAt(l, 0, SBATCH) && SpacesIn(l, |SBATCH|, |l|) {
      next := LATE_WORDS;
      HeaderRunsOn(l);
      HeaderAlone(l);
      LateWords();
    } else {
      next := "7";
      WordsRunOn(l);
    }
    RunsOn(l, next);
  }

  lemma RunsOn(l: string, next: string)
    requires IsLine(l) && IdHere(l + "\n" + next) == {"7"} && LineIds(l) == {} && LineIds(next) == {}
    ensures AllIds(l + "\n" + next, true) != LineIds(l) + LineIds(next)
  {
    IdsOfFirstLine(l, next);
    assert "7" in AllIds(l + "\n" + next, true);
  }

  /** Reading a line by itself is right in front of every next line exactly when the line does not dangle. */
  lemma LineWiseReadingExactly(l: string)
    requires IsLine(l)
    ensures (forall next | IsLine(next) :: AllIds(l + "\n" + next, true) == LineIds(l) + LineIds(next))
       <==> !Dangling(l)
  {
    if Dangling(l) {
      var next := DanglingLineRunsOn(l);
    } else {
      forall next | IsLine(next) ensures AllIds(l + "\n" + next, true) == LineIds(l) + LineIds(next) {
        IdsOfFirstLine(l, next);
        IdsOfLastLine(next);
        LineStandsAlone(l, next);
      }
    }
  }

  // ------------------------------------------------------------------ the verdict on whole output

  lemma {:induction false} StripConcat(a: string, b: string)
    ensures StripReturns(a + b) == StripReturns(a) + StripReturns(b)
  {
    if a == "" {
      assert a + b == b;
    } else {
      assert (a + b)[1..] == a[1..] + b;
      StripConcat(a[1..], b);
    }
  }

  lemma {:induction false} StripKeeps(s: string, c: char)
    ensures c in StripReturns(s) <==> c in s && c != '\r'
    ensures AllSpaces(StripReturns(s)) <==> AllSpaces(s)
  {
    if s != "" {
      StripKeeps(s[1..], c);
      assert s == [s[0]] + s[1..];
      assert AllSpaces(s) <==> IsSpace(s[0]) && AllSpaces(s[1..]);
      var r := StripReturns(s);
      assert s[0] != '\r' ==> r[1..] == StripReturns(s[1..]) && (AllSpaces(r) <==> IsSpace(r[0]) && AllSpaces(r[1..]));
    }
  }

  /** Each line without its carriage returns. */
  function Stripped(lines: seq<string>): (r: seq<string>)
    ensures |r| == |lines| && forall i | 0 <= i < |lines| :: r[i] == StripReturns(lines[i])
  {
    seq(|lines|, i requires 0 <= i < |lines| => StripReturns(lines[i]))
  }

  lemma {:induction false} StripJoin(lines: seq<string>)
    ensures StripReturns(Join(lines)) == Join(Stripped(lines))
  {
    if |lines| > 1 {
      var rest := Join(lines[1..]);
      StripConcat(lines[0] + "\n", rest);
      StripConcat(lines[0], "\n");
      StripJoin(lines[1..]);
      assert Stripped(lines)[1..] == Stripped(lines[1..]);
    }
  }

  lemma BlankConcat(a: string, b: string)
    ensures AllSpaces(a + b) <==> AllSpaces(a) && AllSpaces(b)
  {
    var u := a + b;
    assert forall k | 0 <= k < |b| :: b[k] == u[|a| + k];
    assert forall k | 0 <= k < |a| :: a[k] == u[k];
  }

  lemma {:induction false} JoinBlank(lines: seq<string>)
    ensures AllSpaces(Join(lines)) <==> forall l <- lines :: AllSpaces(l)
  {
    if |lines| > 1 {
      JoinBlank(lines[1..]);
      assert lines == [lines[0]] + lines[1..];
      BlankConcat(lines[0] + "\n", Join(lines[1..]));
      BlankConcat(lines[0], "\n");
    }
  }

  /** The id a line of output carries, its carriage returns aside. */
  ghost predicate Carries(l: string, id: string) {
    id in LineIds(StripReturns(l))
  }

  ghost function CarriedIds(lines: seq<string>): iset<string> {
    iset l, id | l in lines && Carries(l, id) :: id
  }

  lemma {:induction false} IdsOfLines(lines: seq<string>, id: string)
    ensures id in LinesIds(Stripped(lines)) <==> exists l :: l in lines && Carries(l, id)
  {
    if lines != [] {
      assert lines == [lines[0]] + lines[1..];
      assert Stripped(lines)[1..] == Stripped(lines[1..]);
      IdsOfLines(lines[1..], id);
      assert Stripped(lines)[0] == StripReturns(lines[0]);
      assert id in LinesIds(Stripped(lines)) <==> Carries(lines[0], id) || id in LinesIds(Stripped(lines[1..]));
      assert forall l :: l in lines <==> l == lines[0] || l in lines[1..];
    }
  }

  lemma StrippedAreLines(lines: seq<string>)
    requires forall l <- lines :: IsLine(l)
    ensures forall l <- Stripped(lines) :: IsLine(l)
  {
    forall i | 0 <= i < |lines| ensures IsLine(Stripped(lines)[i]) {
      assert lines[i] in lines;
      StripKeeps(lines[i], '\n');
    }
  }

  /** What is read of `front + end`: all of it within the bound, and no more than the last `maxBytes` beyond it. */
  ghost predicate IsTheEnd(front: string, end: string, maxBytes: nat) {
    |end| == maxBytes || (|end| < maxBytes && front == "")
  }

  /** The verdict depends on the last `maxBytes` characters alone. */
  lemma OnlyTheEndCounts(front: string, end: string, maxBytes: nat)
    requires IsTheEnd(front, end, maxBytes)
    ensures BoundOutput(front + end, maxBytes) == end
    ensures ParseSubmission(front + end, maxBytes) == ParseSubmission(end, maxBytes)
  {
    var all := front + end;
    assert all[|front|..] == end && (front == "" ==> all == end);
  }

  lemma VerdictWithin(lines: seq<string>, maxBytes: nat)
    requires forall l <- lines :: IsLine(l)
    requires forall i | 0 <= i < |lines| - 1 :: !Dangling(StripReturns(lines[i]))
    requires |Join(lines)| <= maxBytes
    ensures Fits(ParseSubmission(Join(lines), maxBytes), forall l <- lines :: AllSpaces(l), CarriedIds(lines))
  {
    VerdictBySet(Join(lines), maxBytes);
    StripJoin(lines);
    StripKeeps(Join(lines), ' ');
    JoinBlank(lines);
    StrippedAreLines(lines);
    IdsByLine(Stripped(lines));
    SameIds(lines);
  }

  /** The part of any output that is read, made of submission lines and other lines of which none but the last
      breaks off within the pattern: the verdict read off line by line. The first line may be the rest of one
      that the bound cut. */
  lemma VerdictLineByLine(front: string, lines: seq<string>, maxBytes: nat)
    requires forall l <- lines :: IsLine(l)
    requires forall i | 0 <= i < |lines| - 1 :: !Dangling(StripReturns(lines[i]))
    requires IsTheEnd(front, Join(lines), maxBytes)
    ensures var verdict := ParseSubmission(front + Join(lines), maxBytes);
      Fits(verdict, forall l <- lines :: AllSpaces(l), CarriedIds(lines))
  {
    OnlyTheEndCounts(front, Join(lines), maxBytes);
    VerdictWithin(lines, maxBytes);
  }

  lemma SameIds(lines: seq<string>)
    ensures (iset id | id in LinesIds(Stripped(lines))) == CarriedIds(lines)
  {
    forall id ensures id in LinesIds(Stripped(lines)) <==> id in CarriedIds(lines) {
      IdsOfLines(lines, id);
    }
  }

  /** A reported id is one or more digits, so a job-started message can be built from it. */
  lemma ReportedIdIsNumeric(output: string, maxBytes: nat)
    requires ParseSubmission(output, maxBytes).JobId?
    ensures IsNumeric(ParseSubmission(output, maxBytes).id)
  {
    ScanIsNumeric(StripReturns(BoundOutput(output, maxBytes)), true);
  }

  predicate IsNumeric(id: string) {
    id != "" && DigitsIn(id, 0, |id|)
  }

  lemma DerivedIdIsNumeric(u: string, x: Split)
    requires Derives(u, x)
    ensures IsNumeric(Id(u, x))
  {
  }

  lemma {:induction false} ScanIsNumeric(u: string, start: bool)
    ensures forall id <- Scan(u, start) :: IsNumeric(id)
    decreases |u|, 1
  {
    if u != "" {
      if start && MatchHere(u).Match? {
        MatchDerives(u);
        PastMatchIsNumeric(u, MatchHere(u).x);
      } else {
        ScanIsNumeric(u[1..], u[0] == '\n');
      }
    }
  }

  lemma {:induction false} PastMatchIsNumeric(u: string, x: Split)
    requires Derives(u, x)
    ensures forall id <- PastMatch(u, x) :: IsNumeric(id)
    decreases |u|, 0
  {
    DerivedIdIsNumeric(u, x);
    ScanIsNumeric(u[x.end..], u[x.end - 1] == '\n');
  }

  // ------------------------------------------------------------------ the scheduler's own line

  lemma {:induction false} NothingToStrip(s: string)
    requires '\r' !in s
    ensures StripReturns(s) == s
  {
    if s != "" {
      NothingToStrip(s[1..]);
      assert s == [s[0]] + s[1..];
    }
  }

  /** The line `sbatch` prints on success. */
  function SubmissionLine(id: string): string {
    "Submitted batch job " + id
  }

  lemma SubmissionDerives(id: string)
    requires IsNumeric(id)
    ensures var (l, n) := (SubmissionLine(id), |SUBMITTED|); Derives(l, Split(0, n, n + 1, |l|, |l|))
    ensures var l := SubmissionLine(id); Id(l, Split(0, |SUBMITTED|, |SUBMITTED| + 1, |l|, |l|)) == id
  {
    var l, n := SubmissionLine(id), |SUBMITTED|;
    assert l[n + 1..] == id && l[n] == ' ';
    assert forall k | n + 1 <= k < |l| :: l[k] == id[k - (n + 1)];
    assert forall k | 0 <= k < n :: l[k] == SUBMITTED[k];
  }

  lemma SubmissionIsOneLine(id: string)
    requires IsNumeric(id)
    ensures IsLine(SubmissionLine(id)) && '\r' !in SubmissionLine(id)
  {
    var words := "Submitted batch job ";
    assert forall k | 0 <= k < |words| :: words[k] != '\n' && words[k] != '\r';
    assert forall c :: c in SubmissionLine(id) <==> c in words || c in id;
    assert forall k | 0 <= k < |id| :: IsDigit(id[k]);
  }

  lemma SubmissionCarries(id: string)
    requires IsNumeric(id)
    ensures var l := SubmissionLine(id); l != "" && l[0] == 'S' && IdHere(l) == {id}
  {
    var l := SubmissionLine(id);
    SubmissionDerives(id);
    ForcedId(l, Split(0, |SUBMITTED|, |SUBMITTED| + 1, |l|, |l|));
  }

  lemma LineIdsAlone(l: string, id: string, end: string)
    requires IsLine(l) && IdHere(l) == {id} && (end == "" || end == "\n")
    ensures AllIds(l + end, true) == {id}
  {
    assert MatchHere(l).Match?;
    if end == "" {
      assert l + end == l;
      IdsOfLastLine(l);
    } else {
      LineMatchExtends(l, "");
      assert l + "\n" + "" == l + end;
      IdsOfFirstLine(l, "");
    }
  }

  lemma OneIdDecides(output: string, maxBytes: nat, id: string)
    requires |output| <= maxBytes && '\r' !in output && !AllSpaces(output) && AllIds(output, true) == {id}
    ensures ParseSubmission(output, maxBytes) == JobId(id)
  {
    NothingToStrip(output);
    VerdictBySet(output, maxBytes);
    assert (iset x | x in AllIds(output, true)) == iset{id};
  }

  /** The line of a submission alone, or closed by a newline, gives its id, whatever the digits. */
  lemma SubmissionIsRead(id: string, end: string, maxBytes: nat)
    requires IsNumeric(id) && (end == "" || end == "\n") && |SubmissionLine(id) + end| <= maxBytes
    ensures ParseSubmission(SubmissionLine(id) + end, maxBytes) == JobId(id)
  {
    var l := SubmissionLine(id);
    SubmissionCarries(id);
    SubmissionIsOneLine(id);
    LineIdsAlone(l, id, end);
    assert (l + end)[0] == l[0];
    OneIdDecides(l + end, maxBytes, id);
  }
}
