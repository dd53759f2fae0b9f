/** The percentile release gate: limits on every measurement, and coverage of every required triple. */
module PerformanceGate {
  import opened Outcomes
  import opened Percentiles

  datatype Sample = Number(n: real) | NotNumeric

  /** A metric whose samples are missing, or are not a list, is not in `samples`. */
  datatype Measurement = Measurement(
    app: string, surface: string, tier: string, samples: map<string, seq<Sample>>, artifactSize: Sample)

  /** Report entries that are not objects are skipped by the gate. */
  datatype Entry = Object(measurement: Measurement) | NotAnObject

  datatype Triple = Triple(app: string, surface: string, tier: string)

  type SurfacePolicy = map<string, real>

  datatype Budgets = Budgets(
    schemaVersion: Option<int>,
    percentilePolicy: map<string, string>,
    apps: map<string, map<string, SurfacePolicy>>,
    requiredTiers: seq<string>)

  datatype Report = Report(schemaVersion: Option<int>, measurements: seq<Entry>)

  datatype Finding =
    | NoBudget
    | UnexpectedTier
    | TooFewSamples(metric: string)
    | OverLimit(metric: string)
    | NoArtifactSize
    | ArtifactTooBig

  /** A policy without a limit the gate looks up. */
  datatype Crash = MissingLimit(limitKey: string)

  datatype Verdict =
    | Pass
    | Failed(duplicates: set<Triple>, missing: set<Triple>, findings: seq<Finding>)
    | BadInput
    | Crashed(crash: Crash)

  const METRICS := [
    ("cold_start_ms", "cold_start_ms_p95_max"),
    ("warm_start_ms", "warm_start_ms_p95_max"),
    ("memory_pss_mb", "memory_pss_mb_p95_max"),
    ("janky_frames_pct", "janky_frames_pct_p95_max"),
    ("network_bytes", "network_bytes_p95_max")]

  const ARTIFACT_LIMIT := "artifact_size_bytes_p95_max"

  function PolicyFor(b: Budgets, m: Measurement): SurfacePolicy {
    if m.app in b.apps && m.surface in b.apps[m.app] then b.apps[m.app][m.surface] else map[]
  }

  predicate HasEnoughSamples(m: Measurement, metric: string) {
    && metric in m.samples
    && |m.samples[metric]| >= 20
    && forall i :: 0 <= i < |m.samples[metric]| ==> m.samples[metric][i].Number?
  }

  function Numbers(samples: seq<Sample>): (r: seq<real>)
    ensures |r| == |samples|
  {
    seq(|samples|, i requires 0 <= i < |samples| => if samples[i].Number? then samples[i].n else 0.0)
  }

  /** More than one sample in twenty exceeds the limit. */
  predicate TooManyAbove(m: Measurement, metric: string, limit: real) {
    && HasEnoughSamples(m, metric)
    && CountAbove(Numbers(m.samples[metric]), limit) > |m.samples[metric]| / 20
  }

  /** What a finding says about a measurement that has a budget. */
  ghost predicate Applies(b: Budgets, m: Measurement, f: Finding) {
    var policy := PolicyFor(b, m);
    match f
    case NoBudget => policy == map[]
    case UnexpectedTier => policy != map[] && m.tier !in b.requiredTiers
    case TooFewSamples(metric) =>
      policy != map[] && !HasEnoughSamples(m, metric)
      && exists k :: 0 <= k < |METRICS| && METRICS[k].0 == metric
    case OverLimit(metric) =>
      policy != map[]
      && exists k :: 0 <= k < |METRICS| && METRICS[k].0 == metric
                     && METRICS[k].1 in policy && TooManyAbove(m, metric, policy[METRICS[k].1])
    case NoArtifactSize => policy != map[] && (m.artifactSize.NotNumeric? || m.artifactSize.n <= 0.0)
    case ArtifactTooBig =>
      policy != map[] && m.artifactSize.Number? && m.artifactSize.n > 0.0
      && ARTIFACT_LIMIT in policy && m.artifactSize.n > policy[ARTIFACT_LIMIT]
  }

  /** The gate looks up a limit that the policy does not have. */
  ghost predicate LacksLimit(b: Budgets, m: Measurement) {
    var policy := PolicyFor(b, m);
    policy != map[] && exists k :: 0 <= k < |METRICS| && HasEnoughSamples(m, METRICS[k].0) && METRICS[k].1 !in policy
  }

  ghost predicate SomeLacksLimit(b: Budgets, ms: seq<Measurement>) {
    exists i :: 0 <= i < |ms| && LacksLimit(b, ms[i])
  }

  /** The budget is kept: each metric has at least 20 numeric samples, at most one in 20 over its limit. */
  ghost predicate WithinBudget(b: Budgets, m: Measurement) {
    var policy := PolicyFor(b, m);
    && policy != map[]
    && m.tier in b.requiredTiers
    && (forall k :: 0 <= k < |METRICS| ==>
          && HasEnoughSamples(m, METRICS[k].0)
          && METRICS[k].1 in policy
          && !TooManyAbove(m, METRICS[k].0, policy[METRICS[k].1]))
    && m.artifactSize.Number? && m.artifactSize.n > 0.0
    && (ARTIFACT_LIMIT in policy ==> m.artifactSize.n <= policy[ARTIFACT_LIMIT])
  }

  ghost predicate MetricFinding(b: Budgets, m: Measurement, f: Finding, k: int) {
    && 0 <= k < |METRICS|
    && (f == TooFewSamples(METRICS[k].0) || f == OverLimit(METRICS[k].0))
    && Applies(b, m, f)
  }

  /** Reports exactly the findings that apply, unless a limit is missing from the policy. */
  method CheckMeasurement(b: Budgets, m: Measurement) returns (r: Result<seq<Finding>, Crash>)
    ensures r.Err? <==> LacksLimit(b, m)
    ensures r.Ok? ==> forall f :: f in r.value <==> Applies(b, m, f)
    ensures r == Ok([]) <==> WithinBudget(b, m)
  {
    var policy := PolicyFor(b, m);
    if policy == map[] { return Ok([NoBudget]); }
    var findings: seq<Finding> := [];
    if m.tier !in b.requiredTiers { findings := [UnexpectedTier]; }
    MetricsAreDistinct();
    for k := 0 to |METRICS|
      invariant forall f :: f in findings <==>
        (f == UnexpectedTier && Applies(b, m, f)) || exists i :: 0 <= i < k && MetricFinding(b, m, f, i)
      invariant forall i :: 0 <= i < k && HasEnoughSamples(m, METRICS[i].0) ==> METRICS[i].1 in policy
    {
      var (metric, limitKey) := METRICS[k];
      if !HasEnoughSamples(m, metric) {
        assert MetricFinding(b, m, TooFewSamples(metric), k);
        findings := findings + [TooFewSamples(metric)];
        continue;
      }
      if limitKey !in policy { return Err(MissingLimit(limitKey)); }
      var values := Numbers(m.samples[metric]);
      P95WithinIff(values, policy[limitKey]);
      if Percentile(values, 95.0).value > policy[limitKey] {
        assert MetricFinding(b, m, OverLimit(metric), k);
        findings := findings + [OverLimit(metric)];
      }
    }
    if m.artifactSize.NotNumeric? || m.artifactSize.n <= 0.0 {
      findings := findings + [NoArtifactSize];
    } else if ARTIFACT_LIMIT in policy && m.artifactSize.n > policy[ARTIFACT_LIMIT] {
      findings := findings + [ArtifactTooBig];
    }
    forall f ensures f in findings <==> Applies(b, m, f) {
      FindingKinds(b, m, f);
    }
    WithinBudgetIffNothingApplies(b, m);
    assert findings != [] ==> findings[0] in findings;
    return Ok(findings);
  }

  lemma FindingKinds(b: Budgets, m: Measurement, f: Finding)
    requires PolicyFor(b, m) != map[]
    ensures Applies(b, m, f) <==>
      || (f in [UnexpectedTier, NoArtifactSize, ArtifactTooBig] && Applies(b, m, f))
      || exists k :: MetricFinding(b, m, f, k)
  {
    if Applies(b, m, f) && (f.TooFewSamples? || f.OverLimit?) {
      var k :| 0 <= k < |METRICS| && METRICS[k].0 == f.metric;
      assert MetricFinding(b, m, f, k);
    }
  }

  lemma MetricsAreDistinct()
    ensures forall i, j :: 0 <= i < j < |METRICS| ==> METRICS[i].0 != METRICS[j].0
  {
  }

  lemma WithinBudgetIffNothingApplies(b: Budgets, m: Measurement)
    ensures !LacksLimit(b, m) ==> (WithinBudget(b, m) <==> forall f :: !Applies(b, m, f))
    ensures WithinBudget(b, m) ==> !LacksLimit(b, m)
  {
    if !LacksLimit(b, m) && forall f :: !Applies(b, m, f) {
      forall k | 0 <= k < |METRICS|
        ensures HasEnoughSamples(m, METRICS[k].0) && METRICS[k].1 in PolicyFor(b, m)
        ensures !TooManyAbove(m, METRICS[k].0, PolicyFor(b, m)[METRICS[k].1])
      {
        assert !Applies(b, m, NoBudget);
        assert !Applies(b, m, TooFewSamples(METRICS[k].0));
        assert !Applies(b, m, OverLimit(METRICS[k].0));
      }
      assert !Applies(b, m, NoBudget) && !Applies(b, m, UnexpectedTier);
      assert !Applies(b, m, NoArtifactSize) && !Applies(b, m, ArtifactTooBig);
    }
    if WithinBudget(b, m) {
      forall f ensures !Applies(b, m, f) {
        MetricsAreDistinct();
      }
    }
  }

  // ----- The budget, metric by metric -----

  ghost predicate IsSampled(m: Measurement, metric: string) {
    && metric in m.samples && |m.samples[metric]| >= 20
    && forall i :: 0 <= i < |m.samples[metric]| ==> m.samples[metric][i].Number?
  }

  /** The positions of the samples of a metric that exceed a limit. */
  ghost function Above(samples: seq<Sample>, limit: real): set<int> {
    set i | 0 <= i < |samples| && samples[i].Number? && samples[i].n > limit
  }

  /** At least 20 numeric samples, at most one in 20 of which exceeds the policy's limit. */
  ghost predicate StaysWithin(m: Measurement, policy: SurfacePolicy, metric: string, key: string) {
    && IsSampled(m, metric)
    && key in policy && |Above(m.samples[metric], policy[key])| <= |m.samples[metric]| / 20
  }

  lemma {:induction false} CountIsOfSamples(samples: seq<Sample>, limit: real)
    requires forall i :: 0 <= i < |samples| ==> samples[i].Number?
    ensures CountAbove(Numbers(samples), limit) == |Above(samples, limit)|
  {
    if samples == [] {
    } else {
      var n := |samples| - 1;
      var init := samples[..n];
      CountIsOfSamples(init, limit);
      assert Numbers(samples) == Numbers(init) + [samples[n].n];
      CountOfConcat(Numbers(init), [samples[n].n], limit);
      var before := Above(init, limit);
      assert Above(samples, limit) == if samples[n].n > limit then before + {n} else before;
    }
  }

  lemma StaysWithinIff(m: Measurement, policy: SurfacePolicy, metric: string, key: string)
    ensures HasEnoughSamples(m, metric) <==> IsSampled(m, metric)
    ensures StaysWithin(m, policy, metric, key) <==>
      HasEnoughSamples(m, metric) && key in policy && !TooManyAbove(m, metric, policy[key])
  {
    if HasEnoughSamples(m, metric) && key in policy {
      CountIsOfSamples(m.samples[metric], policy[key]);
    }
  }

  ghost predicate StaysWithinAll(m: Measurement, policy: SurfacePolicy) {
    && StaysWithin(m, policy, "cold_start_ms", "cold_start_ms_p95_max")
    && StaysWithin(m, policy, "warm_start_ms", "warm_start_ms_p95_max")
    && StaysWithin(m, policy, "memory_pss_mb", "memory_pss_mb_p95_max")
    && StaysWithin(m, policy, "janky_frames_pct", "janky_frames_pct_p95_max")
    && StaysWithin(m, policy, "network_bytes", "network_bytes_p95_max")
  }

  /** The budget with every metric and limit named. */
  lemma WithinBudgetByName(b: Budgets, m: Measurement)
    ensures WithinBudget(b, m) <==>
      && m.app in b.apps && m.surface in b.apps[m.app] && m.tier in b.requiredTiers
      && b.apps[m.app][m.surface] != map[]
      && StaysWithinAll(m, b.apps[m.app][m.surface])
      && m.artifactSize.Number? && m.artifactSize.n > 0.0
      && ("artifact_size_bytes_p95_max" in b.apps[m.app][m.surface] ==>
            m.artifactSize.n <= b.apps[m.app][m.surface]["artifact_size_bytes_p95_max"])
  {
    hide HasEnoughSamples, TooManyAbove, StaysWithin, METRICS;
    MetricsByName(m, PolicyFor(b, m));
  }

  lemma MetricsByName(m: Measurement, policy: SurfacePolicy)
    ensures (forall k :: 0 <= k < |METRICS| ==>
               && HasEnoughSamples(m, METRICS[k].0)
               && METRICS[k].1 in policy && !TooManyAbove(m, METRICS[k].0, policy[METRICS[k].1]))
       <==> StaysWithinAll(m, policy)
  {
    hide HasEnoughSamples, TooManyAbove, StaysWithin;
    forall metric, key
      ensures StaysWithin(m, policy, metric, key) <==>
        HasEnoughSamples(m, metric) && key in policy && !TooManyAbove(m, metric, policy[key])
    {
      StaysWithinIff(m, policy, metric, key);
    }
    assert METRICS[0] == ("cold_start_ms", "cold_start_ms_p95_max");
    assert METRICS[1] == ("warm_start_ms", "warm_start_ms_p95_max");
    assert METRICS[2] == ("memory_pss_mb", "memory_pss_mb_p95_max");
    assert METRICS[3] == ("janky_frames_pct", "janky_frames_pct_p95_max");
    assert METRICS[4] == ("network_bytes", "network_bytes_p95_max");
  }

  // ----- Coverage -----

  function TripleOf(m: Measurement): Triple { Triple(m.app, m.surface, m.tier) }

  function Required(b: Budgets): set<Triple> {
    set app, surface, tier | app in b.apps && surface in b.apps[app] && tier in b.requiredTiers
      :: Triple(app, surface, tier)
  }

  function Measured(entries: seq<Entry>): seq<Measurement> {
    if entries == [] then []
    else if entries[0].Object? then [entries[0].measurement] + Measured(entries[1..])
    else Measured(entries[1..])
  }

  function CountTriple(ms: seq<Measurement>, t: Triple): nat {
    if ms == [] then 0 else CountTriple(ms[1..], t) + if TripleOf(ms[0]) == t then 1 else 0
  }

  /** Exactly one measurement for each required triple, and none for anything else. */
  ghost predicate OneToOne(b: Budgets, ms: seq<Measurement>) {
    && (forall i :: 0 <= i < |ms| ==> TripleOf(ms[i]) in Required(b))
    && (forall t :: t in Required(b) ==> exists i :: 0 <= i < |ms| && TripleOf(ms[i]) == t)
    && (forall i, j :: 0 <= i < j < |ms| ==> TripleOf(ms[i]) != TripleOf(ms[j]))
  }

  predicate UsesP95(b: Budgets) {
    forall metric :: metric in ["latency_ms", "memory_mb", "jank_pct", "network_bytes", "artifact_size_bytes"] ==>
      metric in b.percentilePolicy && b.percentilePolicy[metric] == "p95"
  }

  predicate IsReadable(b: Budgets, r: Report) {
    r.schemaVersion == b.schemaVersion && UsesP95(b) && r.measurements != []
  }

  ghost predicate IsP95(b: Budgets, metric: string) {
    metric in b.percentilePolicy && b.percentilePolicy[metric] == "p95"
  }

  /** What makes the inputs readable, with every metric named. */
  lemma ReadableByName(b: Budgets, r: Report)
    ensures IsReadable(b, r) <==>
      && r.schemaVersion == b.schemaVersion && r.measurements != []
      && IsP95(b, "latency_ms") && IsP95(b, "memory_mb") && IsP95(b, "jank_pct")
      && IsP95(b, "network_bytes") && IsP95(b, "artifact_size_bytes")
  {
  }

  /** The measured objects are the entries that are objects, in order. */
  lemma {:induction false} MeasuredOfConcat(a: seq<Entry>, b: seq<Entry>, m: Measurement)
    ensures Measured(a + b) == Measured(a) + Measured(b)
    ensures Measured([Object(m)]) == [m] && Measured([NotAnObject]) == []
  {
    if a == [] {
      assert a + b == b;
    } else {
      assert (a + b)[1..] == a[1..] + b;
      MeasuredOfConcat(a[1..], b, m);
    }
  }

  /** The required triples: every surface of every app of the budgets, on every required tier. */
  lemma RequiredIff(b: Budgets, t: Triple)
    ensures t in Required(b) <==> t.app in b.apps && t.surface in b.apps[t.app] && t.tier in b.requiredTiers
  {
  }

  lemma {:induction false} CountedTwiceIff(ms: seq<Measurement>, t: Triple)
    ensures CountTriple(ms, t) > 0 <==> exists i :: 0 <= i < |ms| && TripleOf(ms[i]) == t
    ensures CountTriple(ms, t) > 1 <==> exists i, j :: 0 <= i < j < |ms| && TripleOf(ms[i]) == t == TripleOf(ms[j])
  {
    if ms == [] {
    } else {
      var rest := ms[1..];
      CountedTwiceIff(rest, t);
      assert forall i :: 0 <= i < |rest| ==> rest[i] == ms[i + 1];
      assert forall i :: 0 < i < |ms| ==> ms[i] == rest[i - 1];
      if CountTriple(ms, t) > 0 && TripleOf(ms[0]) != t {
        var i :| 0 <= i < |rest| && TripleOf(rest[i]) == t;
        assert TripleOf(ms[i + 1]) == t;
      }
      if CountTriple(ms, t) > 1 {
        var i :| 0 <= i < |rest| && TripleOf(rest[i]) == t;
        if TripleOf(ms[0]) == t {
          assert TripleOf(ms[0]) == t == TripleOf(ms[i + 1]);
        } else {
          var k, l :| 0 <= k < l < |rest| && TripleOf(rest[k]) == t == TripleOf(rest[l]);
          assert TripleOf(ms[k + 1]) == t == TripleOf(ms[l + 1]);
        }
      }
    }
  }

  /** Measurements within budget are required ones, so no separate check for extras is needed. */
  lemma WithinBudgetIsRequired(b: Budgets, m: Measurement)
    requires WithinBudget(b, m)
    ensures TripleOf(m) in Required(b)
  {
    assert m.app in b.apps && m.surface in b.apps[m.app];
  }

  function Seen(ms: seq<Measurement>): set<Triple> {
    set i | 0 <= i < |ms| :: TripleOf(ms[i])
  }

  function Duplicates(ms: seq<Measurement>): set<Triple> {
    set t | t in Seen(ms) && CountTriple(ms, t) > 1
  }

  lemma NoDuplicatesIff(ms: seq<Measurement>)
    ensures Duplicates(ms) == {} <==> forall i, j :: 0 <= i < j < |ms| ==> TripleOf(ms[i]) != TripleOf(ms[j])
  {
    if Duplicates(ms) != {} {
      var t :| t in Duplicates(ms);
      CountedTwiceIff(ms, t);
    }
    forall i, j | 0 <= i < j < |ms| && TripleOf(ms[i]) == TripleOf(ms[j]) ensures Duplicates(ms) != {} {
      CountedTwiceIff(ms, TripleOf(ms[i]));
      assert TripleOf(ms[i]) in Duplicates(ms);
    }
  }

  lemma CoverageIsOneToOne(b: Budgets, ms: seq<Measurement>)
    requires forall i :: 0 <= i < |ms| ==> WithinBudget(b, ms[i])
    ensures Duplicates(ms) == {} && Required(b) - Seen(ms) == {} <==> OneToOne(b, ms)
  {
    NoDuplicatesIff(ms);
    forall i | 0 <= i < |ms| ensures TripleOf(ms[i]) in Required(b) {
      WithinBudgetIsRequired(b, ms[i]);
    }
    if Required(b) - Seen(ms) == {} {
      forall t | t in Required(b) ensures exists i :: 0 <= i < |ms| && TripleOf(ms[i]) == t {
        assert t !in Required(b) - Seen(ms);
      }
    }
  }

  /**
   The gate passes exactly when the inputs are readable, the measured objects are in one-to-one
   correspondence with the required triples, and each of them is within budget.
   */
  method Verify(b: Budgets, r: Report) returns (verdict: Verdict)
    ensures verdict == BadInput <==> !IsReadable(b, r)
    ensures verdict.Crashed? <==>
      IsReadable(b, r) && SomeLacksLimit(b, Measured(r.measurements))
    ensures verdict == Pass <==>
      && IsReadable(b, r)
      && OneToOne(b, Measured(r.measurements))
      && forall i :: 0 <= i < |Measured(r.measurements)| ==> WithinBudget(b, Measured(r.measurements)[i])
    ensures verdict.Failed? ==>
      && verdict.duplicates == Duplicates(Measured(r.measurements))
      && verdict.missing == Required(b) - Seen(Measured(r.measurements))
      && forall f :: f in verdict.findings <==>
           exists i :: 0 <= i < |Measured(r.measurements)| && Applies(b, Measured(r.measurements)[i], f)
  {
    if !IsReadable(b, r) { return BadInput; }
    var ms := Measured(r.measurements);
    var duplicates, missing := Duplicates(ms), Required(b) - Seen(ms);
    var findings: seq<Finding> := [];
    for i := 0 to |ms|
      invariant forall k :: 0 <= k < i ==> !LacksLimit(b, ms[k])
      invariant findings == [] <==> forall k :: 0 <= k < i ==> WithinBudget(b, ms[k])
      invariant forall f :: f in findings <==> exists k :: 0 <= k < i && Applies(b, ms[k], f)
    {
      var checked := CheckMeasurement(b, ms[i]);
      if checked.Err? {
        assert SomeLacksLimit(b, ms);
        return Crashed(checked.error);
      }
      findings := findings + checked.value;
    }
    if findings == [] {
      CoverageIsOneToOne(b, ms);
    }
    if duplicates == {} && missing == {} && findings == [] { return Pass; }
    return Failed(duplicates, missing, findings);
  }
}
