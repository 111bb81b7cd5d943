/** The key of a metric sample: a text made of the metric name and the sorted labels, shown to determine the
    name and the label set and to be determined by them. */
module MetricKeys {
  import opened Wrappers
  import opened JsonText
  import opened KeySort
  import CanonicalJson
  import opened MetricRules

  /** Label names and values, in insertion order; names are distinct, as in any object. */
  type Labels = seq<Entry<Text>>

  datatype Code = InvalidMetricName | ForbiddenMetricLabel | ForbiddenMetricLabelValue | InvalidMetricValue

  /** The environment label and the order on label names. */
  datatype Settings = Settings(environment: Text, le: Order)

  const SEPARATOR: Unit := ':' as int
  const ENVIRONMENT: Text :=
    ['e' as int, 'n' as int, 'v' as int, 'i' as int, 'r' as int, 'o' as int, 'n' as int, 'm' as int, 'e' as int,
     'n' as int, 't' as int]
  const NAME_PREFIX: Text := ['s' as int, 'l' as int, 'a' as int, 'i' as int, 'f' as int, '_' as int]

  lemma EnvironmentIsSpelled()
    ensures |ENVIRONMENT| == |"environment"|
    ensures forall i | 0 <= i < |ENVIRONMENT| :: ENVIRONMENT[i] == "environment"[i] as int
  {
  }

  /** /^slaif_[a-z0-9_]+$/ */
  predicate IsMetricName(name: Text) {
    && NAME_PREFIX <= name && |NAME_PREFIX| < |name|
    && forall u <- name[|NAME_PREFIX|..] :: 'a' as int <= u <= 'z' as int || IsDigit(u) || u == '_' as int
  }

  /** An ASCII name is a metric name exactly when `slaif_` and one or more of the small letters, digits and the
      underscore make it up. */
  lemma MetricNamesExactly(name: string)
    requires forall i | 0 <= i < |name| :: name[i] as int < 0x80
    ensures IsMetricName(Ascii(name)) <==>
      && "slaif_" <= name && 6 < |name|
      && forall i | 6 <= i < |name| :: 'a' <= name[i] <= 'z' || '0' <= name[i] <= '9' || name[i] == '_'
  {
    var t := Ascii(name);
    assert forall i | 0 <= i < |name| :: t[i] == name[i] as int;
    SamePrefix(name, t);
    if 6 < |name| {
      RestOfName(t[6..]);
      assert forall i | 0 <= i < |name| - 6 :: t[6..][i] == name[i + 6] as int;
      assert forall i | 6 <= i < |name| :: t[6..][i - 6] == name[i] as int;
    }
  }

  lemma SamePrefix(name: string, t: Text)
    requires |t| == |name| && forall i | 0 <= i < |name| :: t[i] == name[i] as int
    ensures NAME_PREFIX <= t <==> "slaif_" <= name
  {
    assert forall i | 0 <= i < 6 :: NAME_PREFIX[i] == "slaif_"[i] as int;
  }

  lemma RestOfName(rest: Text)
    ensures (forall u <- rest :: 'a' as int <= u <= 'z' as int || IsDigit(u) || u == '_' as int) <==>
      forall i | 0 <= i < |rest| ::
        'a' as int <= rest[i] <= 'z' as int || '0' as int <= rest[i] <= '9' as int || rest[i] == '_' as int
  {
    assert forall i | 0 <= i < |rest| :: rest[i] in rest;
  }

  // ------------------------------------------------------------------ labels

  /** The first label that is refused, if any. */
  function CheckLabels(labels: Labels): Option<Code> {
    if labels == [] then None
    else if !AllowsName(labels[0].key) then Some(ForbiddenMetricLabel)
    else if |labels[0].value| > 128 || !AllowsValue(labels[0].value) then Some(ForbiddenMetricLabelValue)
    else CheckLabels(labels[1..])
  }

  predicate Names(labels: Labels, name: Text) {
    exists e <- labels :: e.key == name
  }

  /** The labels a sample is stored under: the environment is added unless given. */
  function Effective(s: Settings, labels: Labels): Labels {
    if s.environment != [] && !Names(labels, ENVIRONMENT) then labels + [Entry(ENVIRONMENT, s.environment)] else labels
  }

  /** Accepted labels and the environment make a label set, with the environment's entry added only when
      the caller named none. */
  lemma {:induction false} EffectiveLabels(s: Settings, labels: Labels)
    requires DistinctKeys(labels) && CheckLabels(labels).None?
    ensures LabelSet(Effective(s, labels))
    ensures forall e: Entry<Text> :: e in Effective(s, labels) <==>
      e in labels || (e == Entry(ENVIRONMENT, s.environment) && s.environment != [] && !Names(labels, ENVIRONMENT))
  {
    CheckedNames(labels);
    forall i | 0 <= i < |labels| && !Names(labels, ENVIRONMENT) ensures labels[i].key != ENVIRONMENT {
      assert labels[i] in labels;
    }
  }

  lemma {:induction false} CheckedNames(labels: Labels)
    ensures CheckLabels(labels).None? <==>
      forall i | 0 <= i < |labels| ::
        AllowsName(labels[i].key) && |labels[i].value| <= 128 && AllowsValue(labels[i].value)
  {
    if labels != [] {
      CheckedNames(labels[1..]);
      assert forall i | 0 < i < |labels| :: labels[i] == labels[1..][i - 1];
    }
  }

  predicate AllowsEntry(e: Entry<Text>) {
    AllowsName(e.key) && |e.value| <= 128 && AllowsValue(e.value)
  }

  /** The refusal is that of the first label that is not allowed: its name is tested before its value. */
  lemma {:induction false} FirstRefused(labels: Labels)
    ensures CheckLabels(labels).Some? ==> exists i | 0 <= i < |labels| ::
      && !AllowsEntry(labels[i]) && (forall j | 0 <= j < i :: AllowsEntry(labels[j]))
      && CheckLabels(labels) ==
           Some(if AllowsName(labels[i].key) then ForbiddenMetricLabelValue else ForbiddenMetricLabel)
  {
    if labels != [] && AllowsEntry(labels[0]) {
      var rest := labels[1..];
      FirstRefused(rest);
      if CheckLabels(labels).Some? {
        var i :| 0 <= i < |rest| && !AllowsEntry(rest[i]) && (forall j | 0 <= j < i :: AllowsEntry(rest[j]))
          && CheckLabels(rest) ==
               Some(if AllowsName(rest[i].key) then ForbiddenMetricLabelValue else ForbiddenMetricLabel);
        assert labels[i + 1] == rest[i];
        forall j | 0 <= j < i + 1 ensures AllowsEntry(labels[j]) {
          assert j > 0 ==> labels[j] == rest[j - 1];
        }
      }
    }
  }

  function Pairs(labels: Labels): seq<CanonicalJson.Value> {
    seq(|labels|, i requires 0 <= i < |labels| =>
      CanonicalJson.Arr([CanonicalJson.Str(labels[i].key), CanonicalJson.Str(labels[i].value)]))
  }

  /** `labelsKey`: JSON.stringify of the sorted entries. Arrays of strings print as in canonical JSON. */
  function LabelsKey(s: Settings, labels: Labels): Text {
    match CanonicalJson.Canonical(CanonicalJson.Arr(Pairs(Sort(labels, s.le))), s.le)
    case Ok(t) => t
    case Err(_) => []
  }

  function SampleKey(s: Settings, name: Text, labels: Labels): Text {
    name + [SEPARATOR] + LabelsKey(s, labels)
  }

  // -- the key determines name and label set, and is determined by them

  ghost predicate SameLabels(a: Labels, b: Labels) {
    forall e: Entry<Text> :: e in a <==> e in b
  }

  /** A name a stored label can have. */
  predicate IsLabelName(name: Text) {
    AllowsName(name) || name == ENVIRONMENT
  }

  ghost predicate LabelSet(labels: Labels) {
    DistinctKeys(labels) && forall i | 0 <= i < |labels| :: IsLabelName(labels[i].key)
  }

  /** The comparison tells label names apart; they are ASCII identifiers. */
  ghost predicate Strict(s: Settings) {
    Preorder(s.le) && forall a: Text, b: Text | IsLabelName(a) && IsLabelName(b) && Tied(a, b, s.le) :: a == b
  }

  lemma {:induction false} StringItemsPrint(items: seq<CanonicalJson.Value>, le: Order)
    requires forall i | 0 <= i < |items| :: items[i].Str?
    ensures CanonicalJson.PrintItems(items, le).Ok? && CanonicalJson.NormalItems(items, le) == items
  {
    if items != [] {
      StringItemsPrint(items[1..], le);
      assert items == [items[0]] + items[1..];
    }
  }

  lemma {:induction false} PairItemsPrint(items: seq<CanonicalJson.Value>, le: Order)
    requires forall i | 0 <= i < |items| ::
      items[i].Arr? && |items[i].items| == 2 && items[i].items[0].Str? && items[i].items[1].Str?
    ensures CanonicalJson.PrintItems(items, le).Ok? && CanonicalJson.NormalItems(items, le) == items
  {
    if items != [] {
      StringItemsPrint(items[0].items, le);
      PairItemsPrint(items[1..], le);
      assert items == [items[0]] + items[1..];
    }
  }

  lemma LabelsKeyReads(s: Settings, labels: Labels)
    ensures CanonicalJson.Parse(LabelsKey(s, labels)) == Some(CanonicalJson.Arr(Pairs(Sort(labels, s.le))))
  {
    var v := CanonicalJson.Arr(Pairs(Sort(labels, s.le)));
    PairItemsPrint(Pairs(Sort(labels, s.le)), s.le);
    CanonicalJson.ParseInvertsCanonical(v, s.le);
  }

  lemma PairsAreInjective(a: Labels, b: Labels)
    requires Pairs(a) == Pairs(b)
    ensures a == b
  {
    assert |a| == |Pairs(a)| == |b|;
    forall i | 0 <= i < |a| ensures a[i] == b[i] {
      assert Pairs(a)[i] == Pairs(b)[i];
      assert Pairs(a)[i].items[0].s == a[i].key && Pairs(a)[i].items[1].s == a[i].value;
      assert Pairs(b)[i].items[0].s == b[i].key && Pairs(b)[i].items[1].s == b[i].value;
    }
  }

  lemma SortKeepsLabels(labels: Labels, le: Order)
    ensures SameLabels(labels, Sort(labels, le))
  {
    forall e: Entry<Text> ensures e in labels <==> e in Sort(labels, le) {
      SortMember(labels, le, e);
    }
  }

  lemma SameKeys(a: Labels, b: Labels, k: Text)
    requires SameLabels(a, b)
    ensures HasKey(a, k) ==> HasKey(b, k)
  {
    if HasKey(a, k) {
      var i :| 0 <= i < |a| && a[i].key == k;
      assert a[i] in b;
    }
  }

  lemma LabelsDoNotTie(s: Settings, a: Labels, x: Labels)
    requires Strict(s) && LabelSet(a) && SameLabels(a, x) && DistinctKeys(x)
    ensures NoTies(x, s.le)
  {
    forall i | 0 <= i < |x| ensures IsLabelName(x[i].key) {
      assert x[i] in a;
    }
  }

  /** Two sorted lists of the same labels are one list. */
  lemma SameEntries(x: Labels, y: Labels, le: Order)
    requires Sorted(x, le) && Sorted(y, le) && DistinctKeys(x) && DistinctKeys(y) && NoTies(x, le) && SameLabels(x, y)
    ensures x == y
  {
    forall k: Text ensures HasKey(x, k) <==> HasKey(y, k) {
      SameKeys(x, y, k);
      SameKeys(y, x, k);
    }
    SortedKeysAgree(x, y, le);
    forall i | 0 <= i < |x| ensures x[i] == y[i] {
      assert x[i] in y;
      var j :| 0 <= j < |y| && y[j] == x[i];
      assert i == j;
    }
  }

  lemma SortedOnce(s: Settings, a: Labels, b: Labels)
    requires Strict(s) && LabelSet(a) && LabelSet(b) && SameLabels(a, b)
    ensures Sort(a, s.le) == Sort(b, s.le)
  {
    SortSorts(a, s.le);
    SortSorts(b, s.le);
    SortKeepsDistinct(a, s.le);
    SortKeepsDistinct(b, s.le);
    SortKeepsLabels(a, s.le);
    SortKeepsLabels(b, s.le);
    assert SameLabels(Sort(a, s.le), Sort(b, s.le));
    LabelsDoNotTie(s, a, Sort(a, s.le));
    SameEntries(Sort(a, s.le), Sort(b, s.le), s.le);
  }

  lemma {:induction false} NamesHaveNoSeparator(a: Text, b: Text, t: Text, u: Text)
    requires SEPARATOR !in a && SEPARATOR !in b && a + [SEPARATOR] + t == b + [SEPARATOR] + u
    ensures a == b && t == u
  {
    var x, y := a + [SEPARATOR] + t, b + [SEPARATOR] + u;
    assert x[0] == y[0] && x[1..] == y[1..];
    if a == [] {
      assert x[1..] == t;
      assert y[1..] == u;
    } else {
      assert x[0] == a[0];
      assert x[1..] == a[1..] + [SEPARATOR] + t && y[1..] == b[1..] + [SEPARATOR] + u;
      NamesHaveNoSeparator(a[1..], b[1..], t, u);
      assert a == [a[0]] + a[1..] && b == [b[0]] + b[1..];
    }
  }

  lemma NameUnits(name: Text)
    requires IsMetricName(name)
    ensures SEPARATOR !in name
  {
    assert name == NAME_PREFIX + name[|NAME_PREFIX|..];
  }

  /** Samples share a key exactly when they share name and label set; insertion order is irrelevant. */
  lemma KeysAreExact(s: Settings, name: Text, labels: Labels, name': Text, labels': Labels)
    requires Strict(s) && IsMetricName(name) && IsMetricName(name') && LabelSet(labels) && LabelSet(labels')
    ensures SampleKey(s, name, labels) == SampleKey(s, name', labels') <==> name == name' && SameLabels(labels, labels')
  {
    if SampleKey(s, name, labels) == SampleKey(s, name', labels') {
      NameUnits(name);
      NameUnits(name');
      NamesHaveNoSeparator(name, name', LabelsKey(s, labels), LabelsKey(s, labels'));
      LabelsKeyReads(s, labels);
      LabelsKeyReads(s, labels');
      PairsAreInjective(Sort(labels, s.le), Sort(labels', s.le));
      forall e: Entry<Text> ensures e in labels <==> e in labels' {
        SortMember(labels, s.le, e);
        SortMember(labels', s.le, e);
      }
    }
    if name == name' && SameLabels(labels, labels') {
      SortedOnce(s, labels, labels');
    }
  }

  /** The key as a function, for reasoning that does not look inside it. */
  type KeyOf = (Text, Labels) -> Text

  function KeyFor(s: Settings): KeyOf {
    (name: Text, labels: Labels) => SampleKey(s, name, labels)
  }
}
