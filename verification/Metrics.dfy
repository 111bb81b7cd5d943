/** The metrics registry: samples kept in maps by key, shown to agree with a plain log of the accepted calls. */
module Metrics {
  import opened Wrappers
  import opened JsonText
  import opened KeySort
  import opened MetricKeys
  import opened MetricRules

  datatype Amount = Finite(r: real) | NotFinite

  datatype Sample = Sample(name: Text, labels: Labels, value: real, count: nat, sum: real)

  type Index = map<Text, Sample>

  datatype Kind = Counter | Gauge | Histogram

  /** An accepted call, with its effective labels. */
  datatype Event = Event(kind: Kind, name: Text, labels: Labels, amount: real)

  // ------------------------------------------------------------------ what a log says

  datatype Tally = Tally(sum: real, count: nat, latest: real)

  /** The sum of the amounts of the selected events, how many there are, and the last one. */
  ghost function Summary(log: seq<Event>, selects: Event -> bool): Tally {
    if log == [] then Tally(0.0, 0, 0.0)
    else
      var e, before := log[|log| - 1], Summary(log[..|log| - 1], selects);
      if selects(e) then Tally(before.sum + e.amount, before.count + 1, e.amount) else before
  }

  ghost predicate Recorded(log: seq<Event>, selects: Event -> bool) {
    exists e <- log :: selects(e)
  }

  lemma SummaryStep(log: seq<Event>, e: Event, selects: Event -> bool)
    ensures Recorded(log + [e], selects) <==> Recorded(log, selects) || selects(e)
    ensures var before := Summary(log, selects);
      Summary(log + [e], selects) ==
        if selects(e) then Tally(before.sum + e.amount, before.count + 1, e.amount) else before
  {
    var next := log + [e];
    assert next[..|next| - 1] == log && next[|next| - 1] == e;
    assert forall x: Event :: x in next <==> x in log || x == e;
  }

  lemma {:induction false} Unrecorded(log: seq<Event>, selects: Event -> bool)
    requires !Recorded(log, selects)
    ensures Summary(log, selects) == Tally(0.0, 0, 0.0)
  {
    if log != [] {
      assert log[|log| - 1] in log;
      assert forall e <- log[..|log| - 1] :: e in log;
      Unrecorded(log[..|log| - 1], selects);
    }
  }

  /** Two selections that agree on the log summarise it alike. */
  lemma {:induction false} SameSelection(log: seq<Event>, f: Event -> bool, g: Event -> bool)
    requires forall e <- log :: f(e) <==> g(e)
    ensures Summary(log, f) == Summary(log, g)
    ensures Recorded(log, f) <==> Recorded(log, g)
  {
    if log != [] {
      assert log[|log| - 1] in log;
      assert forall e <- log[..|log| - 1] :: e in log;
      SameSelection(log[..|log| - 1], f, g);
    }
  }

  // ------------------------------------------------------------------ an index against the log, key by key

  ghost function Keyed(keyOf: KeyOf, kind: Kind, key: Text): Event -> bool {
    (e: Event) => e.kind == kind && keyOf(e.name, e.labels) == key
  }

  ghost predicate WellNamed(log: seq<Event>) {
    forall e <- log :: IsMetricName(e.name) && LabelSet(e.labels)
  }

  ghost predicate KeptUnder(keyOf: KeyOf, key: Text, sample: Sample) {
    IsMetricName(sample.name) && LabelSet(sample.labels) && keyOf(sample.name, sample.labels) == key
  }

  /** What a sample of each kind must hold. */
  ghost predicate Holds(kind: Kind, sample: Sample, tally: Tally) {
    match kind
    case Counter => sample.value == tally.sum
    case Gauge => sample.value == tally.latest
    case Histogram => sample.value == sample.sum == tally.sum && sample.count == tally.count
  }

  ghost predicate Agrees(keyOf: KeyOf, log: seq<Event>, kind: Kind, index: Index) {
    && (forall k: Text :: k in index <==> Recorded(log, Keyed(keyOf, kind, k)))
    && (forall k: Text <- index ::
          KeptUnder(keyOf, k, index[k]) && Holds(kind, index[k], Summary(log, Keyed(keyOf, kind, k))))
  }

  ghost predicate AllAgree(keyOf: KeyOf, log: seq<Event>, counters: Index, gauges: Index, histograms: Index) {
    && WellNamed(log)
    && Agrees(keyOf, log, Counter, counters)
    && Agrees(keyOf, log, Gauge, gauges)
    && Agrees(keyOf, log, Histogram, histograms)
  }

  // ------------------------------------------------------------------ calls

  /** The first test a call fails, in the order the code makes them. */
  function Refusal(kind: Kind, name: Text, labels: Labels, amount: Amount): Option<Code> {
    if CheckLabels(labels).Some? then CheckLabels(labels)
    else if amount.NotFinite? || (!kind.Gauge? && amount.r < 0.0) then Some(InvalidMetricValue)
    else if !IsMetricName(name) then Some(InvalidMetricName)
    else None
  }

  /** The amounts a kind takes: counters and histograms none below zero, gauges any, and all of them finite. */
  predicate Takes(kind: Kind, amount: Amount) {
    amount.Finite? && (kind == Gauge || 0.0 <= amount.r)
  }

  /** A call is accepted exactly when every label name and value is allowed, its kind takes the amount and the
      name is a metric name; otherwise the labels are refused first, then the amount, then the name. */
  lemma RefusedExactly(kind: Kind, name: Text, labels: Labels, amount: Amount)
    ensures var allowed := forall e: Entry<Text> <- labels ::
        AllowsName(e.key) && |e.value| <= 128 && AllowsValue(e.value);
      var refusal := Refusal(kind, name, labels, amount);
      && (refusal.None? <==> allowed && Takes(kind, amount) && IsMetricName(name))
      && (refusal == Some(InvalidMetricValue) <==> allowed && !Takes(kind, amount))
      && (refusal == Some(InvalidMetricName) <==> allowed && Takes(kind, amount) && !IsMetricName(name))
  {
    CheckedNames(labels);
    FirstRefused(labels);
    assert forall i | 0 <= i < |labels| :: labels[i] in labels;
  }

  /** The sample after an accepted call: `storeSample` with the update of each kind. */
  function Updated(before: Option<Sample>, e: Event): Sample {
    var b := if before.Some? then before.value else Sample(e.name, e.labels, 0.0, 0, 0.0);
    match e.kind
    case Counter => b.(value := b.value + e.amount)
    case Gauge => b.(value := e.amount)
    case Histogram => b.(count := b.count + 1, sum := b.sum + e.amount, value := b.sum + e.amount)
  }

  function Find(index: Index, key: Text): Option<Sample> {
    if key in index then Some(index[key]) else None
  }

  /** An index after an accepted call: changed when it is the call's own, untouched otherwise. */
  function IndexAfter(index: Index, kind: Kind, e: Event, key: Text): Index {
    if e.kind == kind then index[key := Updated(Find(index, key), e)] else index
  }

  lemma IndexAfterAgrees(keyOf: KeyOf, log: seq<Event>, index: Index, kind: Kind, e: Event, key: Text)
    requires Agrees(keyOf, log, kind, index) && IsMetricName(e.name) && LabelSet(e.labels)
    requires key == keyOf(e.name, e.labels)
    ensures Agrees(keyOf, log + [e], kind, IndexAfter(index, kind, e, key))
  {
    var next := IndexAfter(index, kind, e, key);
    forall k: Text
      ensures k in next <==> Recorded(log + [e], Keyed(keyOf, kind, k))
      ensures k in next ==> KeptUnder(keyOf, k, next[k])
      ensures k in next ==> Holds(kind, next[k], Summary(log + [e], Keyed(keyOf, kind, k)))
    {
      SummaryStep(log, e, Keyed(keyOf, kind, k));
      if k !in index {
        Unrecorded(log, Keyed(keyOf, kind, k));
      }
    }
  }

  /** The event of a call that is not refused. */
  function Accepted(s: Settings, kind: Kind, name: Text, labels: Labels, amount: Amount): Event
    requires amount.Finite?
  {
    Event(kind, name, Effective(s, labels), amount.r)
  }

  /** An accepted call keeps all three indexes in agreement with the log. */
  lemma CallKeepsAgreement(
      s: Settings, log: seq<Event>, counters: Index, gauges: Index, histograms: Index,
      kind: Kind, name: Text, labels: Labels, amount: Amount)
    requires AllAgree(KeyFor(s), log, counters, gauges, histograms)
    requires DistinctKeys(labels) && Refusal(kind, name, labels, amount).None?
    ensures var e := Accepted(s, kind, name, labels, amount);
      var key := KeyFor(s)(e.name, e.labels);
      AllAgree(KeyFor(s), log + [e], IndexAfter(counters, Counter, e, key), IndexAfter(gauges, Gauge, e, key),
               IndexAfter(histograms, Histogram, e, key))
  {
    var e := Accepted(s, kind, name, labels, amount);
    EffectiveLabels(s, labels);
    EventKeepsAgreement(KeyFor(s), log, counters, gauges, histograms, e, KeyFor(s)(e.name, e.labels));
  }

  lemma EventKeepsAgreement(
      keyOf: KeyOf, log: seq<Event>, counters: Index, gauges: Index, histograms: Index, e: Event, key: Text)
    requires AllAgree(keyOf, log, counters, gauges, histograms) && key == keyOf(e.name, e.labels)
    requires IsMetricName(e.name) && LabelSet(e.labels)
    ensures AllAgree(keyOf, log + [e], IndexAfter(counters, Counter, e, key), IndexAfter(gauges, Gauge, e, key),
                     IndexAfter(histograms, Histogram, e, key))
  {
    IndexAfterAgrees(keyOf, log, counters, Counter, e, key);
    IndexAfterAgrees(keyOf, log, gauges, Gauge, e, key);
    IndexAfterAgrees(keyOf, log, histograms, Histogram, e, key);
  }

  class MetricsRegistry {
    const settings: Settings
    var counters: Index
    var gauges: Index
    var histograms: Index
    ghost var log: seq<Event>

    constructor (settings: Settings)
      ensures this.settings == settings && Valid() && log == []
    {
      this.settings := settings;
      counters, gauges, histograms := map[], map[], map[];
      log := [];
    }

    /** The three indexes agree with the log of accepted calls. */
    ghost predicate Valid()
      reads this
    {
      AllAgree(KeyFor(settings), log, counters, gauges, histograms)
    }

    method SanitizeLabels(labels: Labels) returns (r: Result<Labels, Code>)
      ensures r == match CheckLabels(labels) case Some(code) => Err(code) case None => Ok(Effective(settings, labels))
    {
      var sanitized: Labels := [];
      for i := 0 to |labels|
        invariant sanitized == labels[..i] && CheckLabels(labels) == CheckLabels(labels[i..])
      {
        assert labels[i..][1..] == labels[i + 1..];
        if !AllowsName(labels[i].key) {
          return Err(ForbiddenMetricLabel);
        }
        if |labels[i].value| > 128 || !AllowsValue(labels[i].value) {
          return Err(ForbiddenMetricLabelValue);
        }
        sanitized := sanitized + [labels[i]];
      }
      assert labels[|labels|..] == [] && sanitized == labels;
      if settings.environment != [] && !Names(sanitized, ENVIRONMENT) {
        sanitized := sanitized + [Entry(ENVIRONMENT, settings.environment)];
      }
      r := Ok(sanitized);
    }

    method Increment(name: Text, labels: Labels, amount: Amount) returns (r: Result<Sample, Code>)
      requires Valid() && DistinctKeys(labels)
      modifies this`counters, this`log
      ensures Valid()
      ensures match Refusal(Counter, name, labels, amount)
        case Some(code) => r == Err(code) && counters == old(counters) && log == old(log)
        case None =>
          var e := Accepted(settings, Counter, name, labels, amount);
          var key := KeyFor(settings)(e.name, e.labels);
          log == old(log) + [e] && counters == IndexAfter(old(counters), Counter, e, key) && r == Ok(counters[key])
    {
      var safe := SanitizeLabels(labels);
      if safe.Err? {
        return Err(safe.error);
      }
      if amount.NotFinite? || amount.r < 0.0 {
        return Err(InvalidMetricValue);
      }
      if !IsMetricName(name) {
        return Err(InvalidMetricName);
      }
      var e := Event(Counter, name, safe.value, amount.r);
      var key := KeyFor(settings)(e.name, e.labels);
      CallKeepsAgreement(settings, log, counters, gauges, histograms, Counter, name, labels, amount);
      var sample := Updated(Find(counters, key), e);
      counters := counters[key := sample];
      log := log + [e];
      r := Ok(sample);
    }

    method SetGauge(name: Text, labels: Labels, amount: Amount) returns (r: Result<Sample, Code>)
      requires Valid() && DistinctKeys(labels)
      modifies this`gauges, this`log
      ensures Valid()
      ensures match Refusal(Gauge, name, labels, amount)
        case Some(code) => r == Err(code) && gauges == old(gauges) && log == old(log)
        case None =>
          var e := Accepted(settings, Gauge, name, labels, amount);
          var key := KeyFor(settings)(e.name, e.labels);
          log == old(log) + [e] && gauges == IndexAfter(old(gauges), Gauge, e, key) && r == Ok(gauges[key])
    {
      var safe := SanitizeLabels(labels);
      if safe.Err? {
        return Err(safe.error);
      }
      if amount.NotFinite? {
        return Err(InvalidMetricValue);
      }
      if !IsMetricName(name) {
        return Err(InvalidMetricName);
      }
      var e := Event(Gauge, name, safe.value, amount.r);
      var key := KeyFor(settings)(e.name, e.labels);
      CallKeepsAgreement(settings, log, counters, gauges, histograms, Gauge, name, labels, amount);
      var sample := Updated(Find(gauges, key), e);
      gauges := gauges[key := sample];
      log := log + [e];
      r := Ok(sample);
    }

    method ObserveHistogram(name: Text, labels: Labels, amount: Amount) returns (r: Result<Sample, Code>)
      requires Valid() && DistinctKeys(labels)
      modifies this`histograms, this`log
      ensures Valid()
      ensures match Refusal(Histogram, name, labels, amount)
        case Some(code) => r == Err(code) && histograms == old(histograms) && log == old(log)
        case None =>
          var e := Accepted(settings, Histogram, name, labels, amount);
          var key := KeyFor(settings)(e.name, e.labels);
          && log == old(log) + [e]
          && histograms == IndexAfter(old(histograms), Histogram, e, key) && r == Ok(histograms[key])
    {
      var safe := SanitizeLabels(labels);
      if safe.Err? {
        return Err(safe.error);
      }
      if amount.NotFinite? || amount.r < 0.0 {
        return Err(InvalidMetricValue);
      }
      if !IsMetricName(name) {
        return Err(InvalidMetricName);
      }
      var e := Event(Histogram, name, safe.value, amount.r);
      var key := KeyFor(settings)(e.name, e.labels);
      CallKeepsAgreement(settings, log, counters, gauges, histograms, Histogram, name, labels, amount);
      var sample := Updated(Find(histograms, key), e);
      histograms := histograms[key := sample];
      log := log + [e];
      r := Ok(sample);
    }
  }

  // ------------------------------------------------------------------ the index against the plain log

  /** Selection by name and label set, with no keys involved. */
  ghost function Plain(kind: Kind, name: Text, labels: Labels): Event -> bool {
    (e: Event) => e.kind == kind && e.name == name && SameLabels(e.labels, labels)
  }

  lemma KeyedIsPlain(s: Settings, log: seq<Event>, kind: Kind, name: Text, labels: Labels)
    requires Strict(s) && WellNamed(log) && IsMetricName(name) && LabelSet(labels)
    ensures forall e <- log :: Keyed(KeyFor(s), kind, SampleKey(s, name, labels))(e) <==> Plain(kind, name, labels)(e)
  {
    forall e <- log
      ensures KeyFor(s)(e.name, e.labels) == SampleKey(s, name, labels)
         <==> e.name == name && SameLabels(e.labels, labels)
    {
      KeysAreExact(s, e.name, e.labels, name, labels);
    }
  }

  /** After any calls, there is a sample for a kind, name and label set exactly when the log has an accepted
      call for them; it carries that name and label set, and holds what the log alone says of them. */
  lemma IndexAgreesWithLog(s: Settings, log: seq<Event>, kind: Kind, index: Index, name: Text, labels: Labels)
    requires Strict(s) && WellNamed(log) && IsMetricName(name) && LabelSet(labels)
    requires Agrees(KeyFor(s), log, kind, index)
    ensures var key, selects := SampleKey(s, name, labels), Plain(kind, name, labels);
      && (key in index <==> Recorded(log, selects))
      && (key in index ==>
            && index[key].name == name && SameLabels(index[key].labels, labels)
            && Holds(kind, index[key], Summary(log, selects)))
  {
    var key := SampleKey(s, name, labels);
    KeyedIsPlain(s, log, kind, name, labels);
    SameSelection(log, Keyed(KeyFor(s), kind, key), Plain(kind, name, labels));
    if key in index {
      KeysAreExact(s, index[key].name, index[key].labels, name, labels);
    }
  }
}
