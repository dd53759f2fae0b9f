/** The fail-closed promotion gate of a staged rollout, and what chains of accepted promotions do. */
module Rollout {
  import opened Outcomes
  import opened Text

  /** A value of the operator's packet. Truth values are kept apart from numbers. */
  datatype Json =
    | Null | Bool(b: bool) | Number(n: real) | NonFinite | Str(s: string) | Array | Object(fields: map<string, Json>)

  type Fields = map<string, Json>

  datatype StagePolicy = StagePolicy(name: string, maxPercentage: real)

  /** The repository's own policy; an absent number is zero. */
  datatype Policy = Policy(
    schemaVersion: Json,
    stages: seq<StagePolicy>,
    minimumWindowHours: real,
    minimumSamples: real,
    guardrails: Fields)

  const STAGES := ["none", "internal", "alpha", "beta", "percentage"]

  /** Metric, threshold key, and whether the threshold is a minimum. */
  const GUARDRAILS := [
    ("crash_free_sessions", "crash_free_sessions_min", true),
    ("anr_rate", "anr_rate_max", false),
    ("payment_success_rate", "payment_success_rate_min", true),
    ("create_order_success_rate", "create_order_success_rate_min", true)]

  /** The release fields that name neither a stage nor a percentage. */
  const UNTOUCHED := [
    "commit", "version_code", "version_name", "release_notes", "rollback_plan", "artifact_sha256",
    "rollback_artifact_sha256", "config_schema_version", "current_stage_approved", "active_order_recovery",
    "support_recovery", "backend_compatibility"]

  function Get(m: Fields, key: string): Json {
    if key in m then m[key] else Null
  }

  function ObjectAt(m: Fields, key: string): Fields {
    if Get(m, key).Object? then Get(m, key).fields else map[]
  }

  /** Equal to the integer 1 the way the gate compares: the truth value `true` is equal to 1 too. */
  predicate EqualsOne(j: Json) {
    j == Number(1.0) || j == Bool(true)
  }

  function IndexFrom(stage: string, from: nat): (i: int)
    requires from <= |STAGES|
    ensures -1 <= i < |STAGES|
    decreases |STAGES| - from
  {
    if from == |STAGES| then -1
    else if STAGES[from] == stage then from
    else IndexFrom(stage, from + 1)
  }

  /** The position of a stage on the ladder, or -1. */
  function StageIndex(stage: string): (i: int)
    ensures -1 <= i < 5
  {
    IndexFrom(stage, 0)
  }

  lemma {:induction false} IndexFromIsFirst(stage: string, from: nat)
    requires from <= |STAGES| && stage !in STAGES[..from]
    ensures IndexFrom(stage, from) >= 0 ==> STAGES[IndexFrom(stage, from)] == stage
    ensures IndexFrom(stage, from) == -1 <==> stage !in STAGES
    decreases |STAGES| - from
  {
    if from == |STAGES| {
      assert STAGES[..from] == STAGES;
    } else if STAGES[from] != stage {
      assert STAGES[..from + 1] == STAGES[..from] + [STAGES[from]];
      IndexFromIsFirst(stage, from + 1);
    }
  }

  /** A stage is found exactly when it is on the ladder, and at its own position. */
  lemma StageIndexIsPosition(stage: string)
    ensures StageIndex(stage) >= 0 ==> STAGES[StageIndex(stage)] == stage
    ensures StageIndex(stage) == -1 <==> stage !in STAGES
  {
    IndexFromIsFirst(stage, 0);
  }

  /** The rungs of the ladder by name. */
  predicate IsNextStage(from: string, to: string) {
    || (from == "none" && to == "internal")
    || (from == "internal" && to == "alpha")
    || (from == "alpha" && to == "beta")
    || (from == "beta" && to == "percentage")
  }

  lemma StageIndexByName(stage: string)
    ensures StageIndex(stage)
         == if stage == "none" then 0 else if stage == "internal" then 1 else if stage == "alpha" then 2
            else if stage == "beta" then 3 else if stage == "percentage" then 4 else -1
  {
    StageIndexIsPosition(stage);
    StagesAreDistinct();
    assert STAGES[0] == "none" && STAGES[1] == "internal" && STAGES[2] == "alpha";
    assert STAGES[3] == "beta" && STAGES[4] == "percentage";
  }

  lemma StagesAreDistinct()
    ensures forall i, j :: 0 <= i < j < |STAGES| ==> STAGES[i] != STAGES[j]
  {
    assert STAGES[0][0] == 'n' && STAGES[1][0] == 'i' && STAGES[2][0] == 'a';
    assert STAGES[3][0] == 'b' && STAGES[4][0] == 'p';
  }

  /** One stage up the ladder is the next rung. */
  lemma NextStageIff(from: string, to: string)
    ensures IsNextStage(from, to) <==> StageIndex(to) >= 1 && StageIndex(from) + 1 == StageIndex(to)
  {
    StageIndexByName(from);
    StageIndexByName(to);
  }

  /** The trimmed text of a field, if it has the minimum length. */
  function TextOf(j: Json, minimum: nat): Option<string> {
    if j.Str? && |Strip(j.s)| >= minimum then Some(Strip(j.s)) else None
  }

  predicate IsText(j: Json, minimum: nat) {
    j.Str? && |Strip(j.s)| >= minimum
  }

  predicate IsPositiveInteger(j: Json) {
    j.Number? && j.n > 0.0 && j.n == j.n.Floor as real
  }

  predicate IsSha256(j: Json) {
    j.Str? && IsLowerHex(Lower(Strip(j.s)), 64)
  }

  function CapOf(stages: seq<StagePolicy>, stage: string): Option<real> {
    if stages == [] then None
    else if stages[0].name == stage then Some(stages[0].maxPercentage)
    else CapOf(stages[1..], stage)
  }

  /** Row `i` is the first of the policy that names the stage. */
  ghost predicate IsFirstRow(stages: seq<StagePolicy>, stage: string, i: int) {
    0 <= i < |stages| && stages[i].name == stage && forall j :: 0 <= j < i ==> stages[j].name != stage
  }

  lemma {:induction false} CapIsOfFirstRow(stages: seq<StagePolicy>, stage: string)
    ensures CapOf(stages, stage).None? ==> forall i :: !IsFirstRow(stages, stage, i)
    ensures CapOf(stages, stage).Some? ==>
      exists i :: IsFirstRow(stages, stage, i) && stages[i].maxPercentage == CapOf(stages, stage).value
    ensures forall i :: IsFirstRow(stages, stage, i) ==> CapOf(stages, stage) == Some(stages[i].maxPercentage)
  {
    if stages == [] {
    } else if stages[0].name == stage {
      assert IsFirstRow(stages, stage, 0);
    } else {
      var rest := stages[1..];
      CapIsOfFirstRow(rest, stage);
      forall i ensures IsFirstRow(stages, stage, i) <==> IsFirstRow(rest, stage, i - 1) {
        assert forall j :: 0 < j < |stages| ==> stages[j] == rest[j - 1];
        assert forall j :: 0 <= j < |rest| ==> rest[j] == stages[j + 1];
      }
      if CapOf(rest, stage).Some? {
        var i :| IsFirstRow(rest, stage, i) && rest[i].maxPercentage == CapOf(rest, stage).value;
        assert IsFirstRow(stages, stage, i + 1);
      }
    }
  }

  // ----- The policy -----

  predicate IdentifiesRelease(release: Fields, expectedCommit: string) {
    && Get(release, "commit").Str?
    && IsLowerHex(Strip(Get(release, "commit").s), 40)
    && (expectedCommit != "" ==> Strip(Get(release, "commit").s) == expectedCommit)
    && IsPositiveInteger(Get(release, "version_code"))
    && IsText(Get(release, "version_name"), 1)
    && IsText(Get(release, "release_notes"), 20)
    && IsText(Get(release, "rollback_plan"), 20)
    && IsSha256(Get(release, "artifact_sha256"))
    && IsSha256(Get(release, "rollback_artifact_sha256"))
    && IsPositiveInteger(Get(release, "config_schema_version"))
  }

  /** The target is the stage right after the approved current one. */
  predicate AdvancesOneStage(release: Fields, target: string) {
    && Get(release, "current_stage").Str?
    && IsNextStage(Get(release, "current_stage").s, target)
    && Get(release, "current_stage_approved") == Bool(true)
  }

  /** The audience grows, within 100 percent and within the cap of the target stage. */
  ghost predicate GrowsWithinCap(policy: Policy, release: Fields, target: string) {
    var to, from := Get(release, "target_percentage"), Get(release, "current_percentage");
    && to.Number? && from.Number?
    && from.n < to.n && 0.0 < to.n <= 100.0
    && exists i :: IsFirstRow(policy.stages, target, i) && to.n <= policy.stages[i].maxPercentage
  }

  predicate IsRecoverable(policy: Policy, release: Fields) {
    var compatibility := ObjectAt(release, "backend_compatibility");
    && Get(release, "active_order_recovery") == Bool(true)
    && Get(release, "support_recovery") == Bool(true)
    && Get(release, "backend_compatibility").Object?
    && Get(compatibility, "status") == Str("compatible")
    && Get(compatibility, "legacy_client_supported") == Bool(true)
    && Get(compatibility, "new_client_supported") == Bool(true)
    && Get(compatibility, "window_hours").Number?
    && Get(compatibility, "window_hours").n >= policy.minimumWindowHours
  }

  predicate KeepsGuardrail(policy: Policy, metrics: Fields, k: nat)
    requires k < |GUARDRAILS|
  {
    var (metric, key, isMinimum) := GUARDRAILS[k];
    var value, threshold := Get(metrics, metric), Get(policy.guardrails, key);
    && value.Number? && 0.0 <= value.n <= 1.0
    && threshold.Number?
    && (if isMinimum then value.n >= threshold.n else value.n <= threshold.n)
  }

  /** The metric is a share, at or above its threshold. */
  predicate IsAtLeast(policy: Policy, metrics: Fields, metric: string, key: string) {
    && metric in metrics && metrics[metric].Number? && 0.0 <= metrics[metric].n <= 1.0
    && key in policy.guardrails && policy.guardrails[key].Number?
    && metrics[metric].n >= policy.guardrails[key].n
  }

  /** The metric is a share, at or below its threshold. */
  predicate IsAtMost(policy: Policy, metrics: Fields, metric: string, key: string) {
    && metric in metrics && metrics[metric].Number? && 0.0 <= metrics[metric].n <= 1.0
    && key in policy.guardrails && policy.guardrails[key].Number?
    && metrics[metric].n <= policy.guardrails[key].n
  }

  /** Enough sessions survive, payments and orders succeed often enough, and few enough sessions hang. */
  predicate KeepsGuardrails(policy: Policy, metrics: Fields) {
    && IsAtLeast(policy, metrics, "crash_free_sessions", "crash_free_sessions_min")
    && IsAtMost(policy, metrics, "anr_rate", "anr_rate_max")
    && IsAtLeast(policy, metrics, "payment_success_rate", "payment_success_rate_min")
    && IsAtLeast(policy, metrics, "create_order_success_rate", "create_order_success_rate_min")
  }

  /** The table of the gate says what the names say. */
  lemma GuardrailsByName(policy: Policy, metrics: Fields)
    ensures (forall k :: 0 <= k < |GUARDRAILS| ==> KeepsGuardrail(policy, metrics, k))
       <==> KeepsGuardrails(policy, metrics)
  {
    hide KeepsGuardrail;
    GuardrailByName(policy, metrics, 0);
    GuardrailByName(policy, metrics, 1);
    GuardrailByName(policy, metrics, 2);
    GuardrailByName(policy, metrics, 3);
  }

  lemma GuardrailByName(policy: Policy, metrics: Fields, k: nat)
    requires k < |GUARDRAILS|
    ensures KeepsGuardrail(policy, metrics, k)
       <==> if GUARDRAILS[k].2 then IsAtLeast(policy, metrics, GUARDRAILS[k].0, GUARDRAILS[k].1)
            else IsAtMost(policy, metrics, GUARDRAILS[k].0, GUARDRAILS[k].1)
  {
  }

  predicate IsMeasured(policy: Policy, metrics: Fields) {
    && Get(metrics, "sample_count").Number? && Get(metrics, "sample_count").n >= policy.minimumSamples
    && IsText(Get(metrics, "window_start"), 1)
    && IsText(Get(metrics, "window_end"), 1)
    && KeepsGuardrails(policy, metrics)
  }

  ghost predicate IsAccepted(policy: Policy, packet: Fields, target: string, expectedCommit: string) {
    var release := ObjectAt(packet, "release");
    && (policy.schemaVersion == Number(1.0) || policy.schemaVersion == Bool(true))
    && (Get(packet, "schema_version") == Number(1.0) || Get(packet, "schema_version") == Bool(true))
    && Get(packet, "release").Object? && Get(packet, "metrics").Object?
    && IdentifiesRelease(release, expectedCommit)
    && AdvancesOneStage(release, target)
    && GrowsWithinCap(policy, release, target)
    && IsRecoverable(policy, release)
    && IsMeasured(policy, ObjectAt(packet, "metrics"))
  }

  // ----- The gate -----

  /** A problem names the field or rule it concerns. */
  datatype Problem = NotNumeric(field: string) | NotText(field: string) | Broken(rule: string)

  class PacketValidator {
    var errors: seq<Problem>

    constructor ()
      ensures errors == []
    {
      errors := [];
    }

    method Demand(condition: bool, p: Problem)
      modifies this
      ensures errors == if condition then old(errors) else old(errors) + [p]
      ensures |errors| == |old(errors)| + if condition then 0 else 1
    {
      if !condition { errors := errors + [p]; }
    }

    /** Truth values, texts and numbers that are not finite are refused. */
    method NumberOf(value: Json, name: string) returns (r: Option<real>)
      modifies this
      ensures r == if value.Number? then Some(value.n) else None
      ensures |errors| == |old(errors)| + if value.Number? then 0 else 1
    {
      r := if value.Number? then Some(value.n) else None;
      Demand(value.Number?, NotNumeric(name));
    }

    method RequiredText(value: Json, name: string, minimum: nat) returns (r: Option<string>)
      modifies this
      ensures r == TextOf(value, minimum)
      ensures |errors| == |old(errors)| + if r.Some? then 0 else 1
    {
      r := TextOf(value, minimum);
      Demand(r.Some?, NotText(name));
    }

    method CheckInteger(value: Json, name: string)
      modifies this
      ensures |errors| >= |old(errors)|
      ensures |errors| == |old(errors)| <==> IsPositiveInteger(value)
    {
      var number := NumberOf(value, name);
      if number.Some? {
        Demand(number.value > 0.0 && number.value == number.value.Floor as real, Broken(name));
      }
    }

    method CheckSha(value: Json, name: string)
      modifies this
      ensures |errors| >= |old(errors)|
      ensures |errors| == |old(errors)| <==> IsSha256(value)
    {
      var sha := RequiredText(value, name, 1);
      if sha.Some? {
        Demand(IsLowerHex(Lower(sha.value), 64), Broken(name));
      }
    }

    method CheckIdentity(release: Fields, expectedCommit: string)
      modifies this
      ensures |errors| >= |old(errors)|
      ensures |errors| == |old(errors)| <==> IdentifiesRelease(release, expectedCommit)
    {
      var commit := RequiredText(Get(release, "commit"), "commit", 40);
      if commit.Some? {
        Demand(IsLowerHex(commit.value, 40), Broken("commit"));
      }
      if expectedCommit != "" {
        Demand(commit == Some(expectedCommit), Broken("expected commit"));
      }
      CheckInteger(Get(release, "version_code"), "version_code");
      var versionName := RequiredText(Get(release, "version_name"), "version_name", 1);
      var notes := RequiredText(Get(release, "release_notes"), "release_notes", 20);
      var plan := RequiredText(Get(release, "rollback_plan"), "rollback_plan", 20);
      CheckSha(Get(release, "artifact_sha256"), "artifact_sha256");
      CheckSha(Get(release, "rollback_artifact_sha256"), "rollback_artifact_sha256");
      CheckInteger(Get(release, "config_schema_version"), "config_schema_version");
    }

    method CheckStage(release: Fields, target: string)
      modifies this
      ensures |errors| >= |old(errors)|
      ensures |errors| == |old(errors)| <==> AdvancesOneStage(release, target)
    {
      hide IsNextStage, IndexFrom;
      Demand(StageIndex(target) >= 1, Broken("target stage"));
      var current := "none";
      var stage := Get(release, "current_stage");
      if stage.Str? {
        StageIndexIsPosition(stage.s);
        NextStageIff(stage.s, target);
      }
      if stage.Str? && stage.s in STAGES {
        current := stage.s;
      } else {
        Demand(false, Broken("current_stage"));
      }
      if StageIndex(target) >= 1 {
        Demand(StageIndex(current) + 1 == StageIndex(target), Broken("one stage"));
      }
      Demand(Get(release, "current_stage_approved") == Bool(true), Broken("current_stage_approved"));
    }

    method CheckPercentages(policy: Policy, release: Fields, target: string)
      modifies this
      ensures |errors| >= |old(errors)|
      ensures |errors| == |old(errors)| <==> GrowsWithinCap(policy, release, target)
    {
      var to := NumberOf(Get(release, "target_percentage"), "target_percentage");
      var from := NumberOf(Get(release, "current_percentage"), "current_percentage");
      var cap := CapOf(policy.stages, target);
      CapIsOfFirstRow(policy.stages, target);
      if cap.None? {
        Demand(false, Broken("stage policy"));
      } else if to.Some? {
        Demand(to.value <= cap.value, Broken("stage cap"));
      }
      if to.Some? {
        Demand(0.0 < to.value <= 100.0, Broken("target_percentage"));
      }
      if from.Some? && to.Some? {
        Demand(to.value > from.value, Broken("increase"));
      }
    }

    method CheckRecovery(policy: Policy, release: Fields)
      modifies this
      ensures |errors| >= |old(errors)|
      ensures |errors| == |old(errors)| <==> IsRecoverable(policy, release)
    {
      Demand(Get(release, "active_order_recovery") == Bool(true), Broken("active_order_recovery"));
      Demand(Get(release, "support_recovery") == Bool(true), Broken("support_recovery"));
      Demand(Get(release, "backend_compatibility").Object?, Broken("backend_compatibility"));
      var compatibility := ObjectAt(release, "backend_compatibility");
      Demand(Get(compatibility, "status") == Str("compatible"), Broken("status"));
      Demand(Get(compatibility, "legacy_client_supported") == Bool(true), Broken("legacy_client_supported"));
      Demand(Get(compatibility, "new_client_supported") == Bool(true), Broken("new_client_supported"));
      var window := NumberOf(Get(compatibility, "window_hours"), "window_hours");
      if window.Some? {
        Demand(window.value >= policy.minimumWindowHours, Broken("window_hours"));
      }
    }

    method CheckMetrics(policy: Policy, metrics: Fields)
      modifies this
      ensures |errors| >= |old(errors)|
      ensures |errors| == |old(errors)| <==> IsMeasured(policy, metrics)
    {
      var samples := NumberOf(Get(metrics, "sample_count"), "sample_count");
      if samples.Some? {
        Demand(samples.value >= policy.minimumSamples, Broken("sample_count"));
      }
      var start := RequiredText(Get(metrics, "window_start"), "window_start", 1);
      var end := RequiredText(Get(metrics, "window_end"), "window_end", 1);
      CheckGuardrails(policy, metrics);
    }

    method CheckGuardrails(policy: Policy, metrics: Fields)
      modifies this
      ensures |errors| >= |old(errors)|
      ensures |errors| == |old(errors)| <==> KeepsGuardrails(policy, metrics)
    {
      GuardrailsByName(policy, metrics);
      for k := 0 to |GUARDRAILS|
        invariant |errors| >= |old(errors)|
        invariant |errors| == |old(errors)| <==> forall j :: 0 <= j < k ==> KeepsGuardrail(policy, metrics, j)
      {
        CheckGuardrail(policy, metrics, k);
      }
    }

    method CheckGuardrail(policy: Policy, metrics: Fields, k: nat)
      requires k < |GUARDRAILS|
      modifies this
      ensures |errors| >= |old(errors)|
      ensures |errors| == |old(errors)| <==> KeepsGuardrail(policy, metrics, k)
    {
      var (metric, key, isMinimum) := GUARDRAILS[k];
      var value := NumberOf(Get(metrics, metric), metric);
      if value.None? { return; }
      if !(0.0 <= value.value <= 1.0) {
        Demand(false, Broken(metric));
        return;
      }
      var threshold := NumberOf(Get(policy.guardrails, key), key);
      if threshold.None? { return; }
      if isMinimum {
        Demand(value.value >= threshold.value, Broken(metric));
      } else {
        Demand(value.value <= threshold.value, Broken(metric));
      }
    }
  }

  /** No errors exactly when the packet is accepted by the policy. */
  method ValidatePacket(policy: Policy, packet: Fields, target: string, expectedCommit: string)
    returns (errors: seq<Problem>)
    ensures errors == [] <==> IsAccepted(policy, packet, target, expectedCommit)
  {
    var v := new PacketValidator();
    v.Demand(EqualsOne(policy.schemaVersion), Broken("policy schema_version"));
    v.Demand(EqualsOne(Get(packet, "schema_version")), Broken("schema_version"));
    v.Demand(Get(packet, "release").Object?, Broken("release"));
    v.Demand(Get(packet, "metrics").Object?, Broken("metrics"));
    var release := ObjectAt(packet, "release");
    v.CheckIdentity(release, expectedCommit);
    v.CheckStage(release, target);
    v.CheckPercentages(policy, release, target);
    v.CheckRecovery(policy, release);
    v.CheckMetrics(policy, ObjectAt(packet, "metrics"));
    errors := v.errors;
  }

  // ----- Chains of promotions -----

  datatype Promotion = Promotion(packet: Fields, target: string, expectedCommit: string)

  function Release(p: Promotion): Fields { ObjectAt(p.packet, "release") }

  function Percentage(p: Promotion): real {
    if Get(Release(p), "target_percentage").Number? then Get(Release(p), "target_percentage").n else 0.0
  }

  ghost predicate IsAcceptedPromotion(policy: Policy, p: Promotion) {
    IsAccepted(policy, p.packet, p.target, p.expectedCommit)
  }

  /** The promotion starts at the stage and percentage that the one before it reached. */
  predicate StartsWhere(before: Promotion, p: Promotion) {
    && Get(Release(p), "current_stage") == Str(before.target)
    && Get(Release(p), "current_percentage") == Get(Release(before), "target_percentage")
  }

  /** Each promotion is accepted and starts where the one before it ended. */
  ghost predicate IsChain(policy: Policy, chain: seq<Promotion>) {
    chain != [] ==>
      var n := |chain| - 1;
      && IsChain(policy, chain[..n])
      && IsAcceptedPromotion(policy, chain[n])
      && (n > 0 ==> StartsWhere(chain[n - 1], chain[n]))
  }

  /** One rung of the climb: a stage above the bottom, within its cap, and above the rung before it. */
  ghost predicate IsRung(policy: Policy, chain: seq<Promotion>, i: int)
    requires 0 <= i < |chain|
  {
    var p := chain[i];
    && Get(Release(p), "target_percentage").Number?
    && 1 <= StageIndex(p.target)
    && CapOf(policy.stages, p.target).Some?
    && 0.0 < Percentage(p) <= CapOf(policy.stages, p.target).value
    && Percentage(p) <= 100.0
    && (i > 0 ==>
          && StageIndex(p.target) == StageIndex(chain[i - 1].target) + 1
          && Percentage(chain[i - 1]) < Percentage(p))
  }

  lemma AcceptedIsRung(policy: Policy, p: Promotion)
    requires IsAcceptedPromotion(policy, p)
    ensures IsRung(policy, [p], 0)
  {
    hide IsNextStage, IndexFrom, CapOf, IdentifiesRelease, IsRecoverable, IsMeasured;
    NextStageIff(Get(Release(p), "current_stage").s, p.target);
    CapIsOfFirstRow(policy.stages, p.target);
  }

  lemma NextIsRung(policy: Policy, before: Promotion, p: Promotion)
    requires IsAcceptedPromotion(policy, p) && StartsWhere(before, p)
    requires Get(Release(before), "target_percentage").Number?
    ensures StageIndex(p.target) == StageIndex(before.target) + 1
    ensures Percentage(before) < Percentage(p)
  {
    hide IsNextStage, IndexFrom, CapOf, IdentifiesRelease, IsRecoverable, IsMeasured;
    NextStageIff(before.target, p.target);
  }

  /** A chain is made of rungs. */
  lemma {:induction false} ChainIsClimb(policy: Policy, chain: seq<Promotion>)
    requires IsChain(policy, chain)
    ensures forall i :: 0 <= i < |chain| ==> IsRung(policy, chain, i)
  {
    hide IsAcceptedPromotion, StartsWhere, StageIndex, Percentage, CapOf;
    if chain == [] {
    } else {
      var n := |chain| - 1;
      ChainIsClimb(policy, chain[..n]);
      AcceptedIsRung(policy, chain[n]);
      if n > 0 {
        assert IsRung(policy, chain[..n], n - 1);
        NextIsRung(policy, chain[n - 1], chain[n]);
      }
      forall i | 0 <= i < n ensures IsRung(policy, chain, i) {
        assert IsRung(policy, chain[..n], i);
      }
    }
  }

  /** A chain climbs the ladder one stage at a time while its audience grows within every cap. */
  lemma {:induction false} ChainClimbs(policy: Policy, chain: seq<Promotion>, i: nat, j: nat)
    requires IsChain(policy, chain) && i <= j < |chain|
    ensures 1 <= StageIndex(chain[i].target)
    ensures StageIndex(chain[j].target) == StageIndex(chain[i].target) + (j - i)
    ensures i < j ==> Percentage(chain[i]) < Percentage(chain[j])
    ensures CapOf(policy.stages, chain[j].target).Some?
    ensures 0.0 < Percentage(chain[j]) <= CapOf(policy.stages, chain[j].target).value
    ensures Percentage(chain[j]) <= 100.0
    decreases j - i
  {
    hide IsAcceptedPromotion;
    ChainIsClimb(policy, chain);
    assert IsRung(policy, chain, j);
    if i < j {
      ChainClimbs(policy, chain, i, j - 1);
    }
  }

  /** At most four promotions occur, and the last stage is terminal. */
  lemma ChainsAreShort(policy: Policy, chain: seq<Promotion>)
    requires IsChain(policy, chain) && chain != []
    ensures |chain| <= 5 - StageIndex(chain[0].target) <= 4
    ensures forall i :: 0 <= i < |chain| && chain[i].target == "percentage" ==> i == |chain| - 1
    ensures |chain| == 4 ==> forall i :: 0 <= i < 4 ==> chain[i].target == STAGES[i + 1]
  {
    hide IsAcceptedPromotion;
    var last := |chain| - 1;
    ChainClimbs(policy, chain, 0, last);
    forall i | 0 <= i < |chain|
      ensures StageIndex(chain[i].target) == StageIndex(chain[0].target) + i
      ensures STAGES[StageIndex(chain[0].target) + i] == chain[i].target
    {
      ChainClimbs(policy, chain, 0, i);
      StageIndexIsPosition(chain[i].target);
    }
    TopStage();
  }

  lemma TopStage()
    ensures StageIndex("percentage") == 4
  {
    StageIndexIsPosition("percentage");
    assert STAGES[4] == "percentage";
    assert forall k :: 0 <= k < 4 ==> |STAGES[k]| != |"percentage"|;
  }

  /** The successor with the same evidence, one stage up, at the given percentage. */
  function Successor(p: Promotion, target: string, percentage: real): Promotion {
    var release := Release(p)["current_stage" := Str(p.target)]
                             ["current_percentage" := Get(Release(p), "target_percentage")]
                             ["target_percentage" := Number(percentage)];
    Promotion(p.packet["release" := Object(release)], target, p.expectedCommit)
  }

  /** There is a stage above the one reached, and its cap leaves room to grow. */
  predicate HasRoomAbove(policy: Policy, p: Promotion) {
    && StageIndex(p.target) < 4
    && Percentage(p) < 100.0
    && CapOf(policy.stages, STAGES[StageIndex(p.target) + 1]).Some?
    && Percentage(p) < CapOf(policy.stages, STAGES[StageIndex(p.target) + 1]).value
  }

  /** An accepted promotion can be followed by another one exactly when there is room above it. */
  lemma CanContinueIff(policy: Policy, p: Promotion)
    requires IsAcceptedPromotion(policy, p)
    ensures (exists q :: IsAcceptedPromotion(policy, q) && StartsWhere(p, q)) <==> HasRoomAbove(policy, p)
  {
    hide IsAcceptedPromotion, StartsWhere, Successor, CapOf;
    StageIndexIsPosition(p.target);
    forall q | IsAcceptedPromotion(policy, q) && StartsWhere(p, q) ensures HasRoomAbove(policy, p) {
      ContinuingNeedsRoom(policy, p, q);
    }
    if HasRoomAbove(policy, p) {
      var next := STAGES[StageIndex(p.target) + 1];
      var cap := CapOf(policy.stages, next).value;
      var q := Successor(p, next, if cap < 100.0 then cap else 100.0);
      SuccessorIsAccepted(policy, p, next, if cap < 100.0 then cap else 100.0);
      assert IsAcceptedPromotion(policy, q) && StartsWhere(p, q);
    }
  }

  lemma ContinuingNeedsRoom(policy: Policy, p: Promotion, q: Promotion)
    requires IsAcceptedPromotion(policy, p) && IsAcceptedPromotion(policy, q) && StartsWhere(p, q)
    ensures HasRoomAbove(policy, p)
  {
    AcceptedIsRung(policy, p);
    AcceptedIsRung(policy, q);
    assert IsRung(policy, [p], 0) && IsRung(policy, [q], 0);
    NextIsRung(policy, p, q);
    StageIndexIsPosition(q.target);
  }

  lemma SuccessorIsAccepted(policy: Policy, p: Promotion, next: string, percentage: real)
    requires IsAcceptedPromotion(policy, p)
    requires StageIndex(next) == StageIndex(p.target) + 1
    requires CapOf(policy.stages, next).Some? && Percentage(p) < percentage <= CapOf(policy.stages, next).value
    requires percentage <= 100.0
    ensures IsAcceptedPromotion(policy, Successor(p, next, percentage))
    ensures StartsWhere(p, Successor(p, next, percentage))
  {
    hide IdentifiesRelease, IsRecoverable, IsMeasured, IsNextStage, IndexFrom, CapOf;
    var q := Successor(p, next, percentage);
    KeepsOtherFields(Release(p), p.target, Get(Release(p), "target_percentage"), percentage);
    EvidenceCarriesOver(policy, Release(p), Release(q), p.expectedCommit);
    SuccessorAdvances(policy, p, next, percentage);
    assert Get(q.packet, "metrics") == Get(p.packet, "metrics");
    assert Get(q.packet, "schema_version") == Get(p.packet, "schema_version");
  }

  lemma SuccessorAdvances(policy: Policy, p: Promotion, next: string, percentage: real)
    requires IsAcceptedPromotion(policy, p)
    requires StageIndex(next) == StageIndex(p.target) + 1
    requires CapOf(policy.stages, next).Some? && Percentage(p) < percentage <= CapOf(policy.stages, next).value
    requires percentage <= 100.0
    ensures AdvancesOneStage(Release(Successor(p, next, percentage)), next)
    ensures GrowsWithinCap(policy, Release(Successor(p, next, percentage)), next)
  {
    hide IdentifiesRelease, IsRecoverable, IsMeasured, IsNextStage, IndexFrom, CapOf;
    KeepsOtherFields(Release(p), p.target, Get(Release(p), "target_percentage"), percentage);
    EvidenceCarriesOver(policy, Release(p), Release(Successor(p, next, percentage)), p.expectedCommit);
    CapIsOfFirstRow(policy.stages, next);
    NextStageIff(Get(Release(p), "current_stage").s, p.target);
    NextStageIff(p.target, next);
  }

  ghost predicate AgreeOnUntouched(release: Fields, next: Fields) {
    forall key :: key in UNTOUCHED ==> Get(next, key) == Get(release, key)
  }

  lemma EvidenceCarriesOver(policy: Policy, release: Fields, next: Fields, commit: string)
    requires AgreeOnUntouched(release, next)
    requires IdentifiesRelease(release, commit) && IsRecoverable(policy, release)
    ensures IdentifiesRelease(next, commit) && IsRecoverable(policy, next)
    ensures Get(next, "current_stage_approved") == Get(release, "current_stage_approved")
  {
    forall i | 0 <= i < |UNTOUCHED| ensures Get(next, UNTOUCHED[i]) == Get(release, UNTOUCHED[i]) {
      assert UNTOUCHED[i] in UNTOUCHED;
    }
  }

  lemma KeepsOtherFields(release: Fields, stage: string, from: Json, to: real)
    ensures var next := release["current_stage" := Str(stage)]["current_percentage" := from]
                               ["target_percentage" := Number(to)];
            && Get(next, "current_stage") == Str(stage) && Get(next, "current_percentage") == from
            && Get(next, "target_percentage") == Number(to)
            && AgreeOnUntouched(release, next)
  {
    assert forall key :: key in UNTOUCHED ==> |key| !in {17, 18} && (|key| == 13 ==> key[0] == 'r');
  }

  // ----- Monotonicity -----

  /** A metric that is a number stays one, within range and no lower. */
  predicate IsNoLower(metrics: Fields, better: Fields, metric: string) {
    Get(metrics, metric).Number? ==>
      Get(better, metric).Number? && Get(metrics, metric).n <= Get(better, metric).n <= 1.0
  }

  /** A metric that is a number stays one, within range and no higher. */
  predicate IsNoHigher(metrics: Fields, better: Fields, metric: string) {
    Get(metrics, metric).Number? ==>
      Get(better, metric).Number? && 0.0 <= Get(better, metric).n <= Get(metrics, metric).n
  }

  /** The three success shares are no lower, the hang rate is no higher, and the rest is the same. */
  predicate Improves(metrics: Fields, better: Fields) {
    && IsNoLower(metrics, better, "crash_free_sessions")
    && IsNoLower(metrics, better, "payment_success_rate")
    && IsNoLower(metrics, better, "create_order_success_rate")
    && IsNoHigher(metrics, better, "anr_rate")
    && Get(better, "sample_count") == Get(metrics, "sample_count")
    && Get(better, "window_start") == Get(metrics, "window_start")
    && Get(better, "window_end") == Get(metrics, "window_end")
  }

  /** Improving guardrail metrics never revokes acceptance. */
  lemma ImprovementKeepsAcceptance(policy: Policy, packet: Fields, better: Fields, target: string, commit: string)
    requires IsAccepted(policy, packet, target, commit)
    requires Improves(ObjectAt(packet, "metrics"), better)
    ensures IsAccepted(policy, packet["metrics" := Object(better)], target, commit)
  {
    var improved := packet["metrics" := Object(better)];
    assert Get(improved, "schema_version") == Get(packet, "schema_version");
    assert Get(improved, "release") == Get(packet, "release");
  }

  /** Every entry of `fewer` is an entry of `more`. */
  ghost predicate IsPartOf(fewer: Fields, more: Fields) {
    forall key :: key in fewer ==> key in more && more[key] == fewer[key]
  }

  /** The gate fails closed: leaving fields out of a release or of its metrics never helps. */
  lemma OmissionNeverHelps(
    policy: Policy, packet: Fields, release: Fields, metrics: Fields, target: string, commit: string)
    requires Get(packet, "release").Object? && IsPartOf(release, ObjectAt(packet, "release"))
    requires Get(packet, "metrics").Object? && IsPartOf(metrics, ObjectAt(packet, "metrics"))
    requires IsAccepted(policy, packet["release" := Object(release)]["metrics" := Object(metrics)], target, commit)
    ensures IsAccepted(policy, packet, target, commit)
  {
    var fullRelease, fullMetrics := ObjectAt(packet, "release"), ObjectAt(packet, "metrics");
    var partial := packet["release" := Object(release)]["metrics" := Object(metrics)];
    assert ObjectAt(partial, "release") == release && ObjectAt(partial, "metrics") == metrics;
    assert forall key :: Get(release, key) != Null ==> Get(fullRelease, key) == Get(release, key);
    assert forall key :: Get(metrics, key) != Null ==> Get(fullMetrics, key) == Get(metrics, key);
  }
}
