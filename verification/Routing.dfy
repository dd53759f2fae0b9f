/** Fail-closed routing of requests to regions, and the single-writer guarantee over whole runs. */
module Routing {
  import opened Outcomes
  import opened Regions

  datatype RegionHealth = RegionHealth(
    status: Option<string>, transactionalReady: Option<bool>, promotionApproved: Option<bool>)

  /** One health snapshot. An empty `promotedRegionId` means that no region is promoted. */
  datatype Health = Health(promotedRegionId: string, regions: map<string, RegionHealth>)

  /** A refused contract, or a field that the catalog does not have. */
  datatype Fault = ContractError | MissingField

  datatype Decision = Decision(accepted: bool, regionId: Option<string>, reasonCode: string, degraded: bool)

  function FindRegion(regions: seq<Region>, id: string): Result<Region, Fault> {
    if regions == [] then Err(ContractError)
    else if regions[0].id.None? then Err(MissingField)
    else if regions[0].id.value == id then Ok(regions[0])
    else FindRegion(regions[1..], id)
  }

  function PrimaryForMarket(c: Catalog, market: string): Result<Region, Fault> {
    var candidates := Serving(c.regions, market, "primary");
    if |candidates| != 1 then Err(ContractError) else Ok(candidates[0])
  }

  function StateOf(health: Health, id: string): RegionHealth {
    if id in health.regions then health.regions[id] else RegionHealth(None, None, None)
  }

  function EffectivePrimary(c: Catalog, market: string, health: Health): Result<Region, Fault> {
    if health.promotedRegionId != "" then
      match FindRegion(c.regions, health.promotedRegionId)
      case Err(e) => Err(e)
      case Ok(promoted) =>
        if market !in promoted.marketCodes then Err(ContractError)
        else if StateOf(health, health.promotedRegionId).promotionApproved != Some(true) then Err(ContractError)
        else Ok(promoted)
    else PrimaryForMarket(c, market)
  }

  predicate IsHealthy(health: Health, id: string, transactional: bool) {
    var state := StateOf(health, id);
    state.status == Some("healthy") && (transactional ==> state.transactionalReady == Some(true))
  }

  /** The regions that may serve a read of the market; asking for a missing id is a fault. */
  function ReadCandidates(regions: seq<Region>, market: string, health: Health): Result<seq<Region>, Fault> {
    if regions == [] then Ok([])
    else
      var r, rest := regions[0], ReadCandidates(regions[1..], market, health);
      if market in r.marketCodes && r.lifecycle != "draining" then
        if r.id.None? then Err(MissingField)
        else if rest.Err? then rest
        else if IsHealthy(health, r.id.value, false) then Ok([r] + rest.value)
        else rest
      else rest
  }

  function Priority(r: Region): int {
    if r.priority.Some? then r.priority.value else 0
  }

  function Insert(r: Region, sorted: seq<Region>): seq<Region> {
    if sorted == [] || Priority(sorted[0]) <= Priority(r) then [r] + sorted
    else [sorted[0]] + Insert(r, sorted[1..])
  }

  /** Stable sort by descending priority: an earlier region stays before its equals. */
  function ByPriority(regions: seq<Region>): seq<Region> {
    if regions == [] then [] else Insert(regions[0], ByPriority(regions[1..]))
  }

  /** A write is rejected first, and routed only when the primary is fit for it. */
  function RouteWrite(c: Catalog, market: string, health: Health): Result<Decision, Fault> {
    match EffectivePrimary(c, market, health)
    case Err(e) => Err(e)
    case Ok(primary) =>
      if primary.id.None? then Err(MissingField)
      else if !IsHealthy(health, primary.id.value, true) then
        Ok(Decision(false, None, "REGION_PRIMARY_UNAVAILABLE", true))
      else Ok(Decision(true, primary.id, "ROUTED_TO_APPROVED_PRIMARY", false))
  }

  /** A transactional read is routed first, and rejected otherwise. */
  function RouteTransactionalRead(c: Catalog, market: string, health: Health): Result<Decision, Fault> {
    match EffectivePrimary(c, market, health)
    case Err(e) => Err(e)
    case Ok(primary) =>
      if primary.id.None? then Err(MissingField)
      else if IsHealthy(health, primary.id.value, true) then
        Ok(Decision(true, primary.id, "ROUTED_TO_PRIMARY", false))
      else Ok(Decision(false, None, "REGION_READ_NOT_READY", true))
  }

  function RouteRead(c: Catalog, market: string, health: Health): Result<Decision, Fault> {
    match ReadCandidates(c.regions, market, health)
    case Err(e) => Err(e)
    case Ok(candidates) =>
      if exists i :: 0 <= i < |candidates| && candidates[i].priority.None? then Err(MissingField)
      else
        var sorted := ByPriority(candidates);
        if sorted == [] then Ok(Decision(false, None, "NO_HEALTHY_REGION", true))
        else Ok(Decision(true, sorted[0].id, "REGION_DEGRADED_READ_ONLY", sorted[0].role != "primary"))
  }

  function RouteRequest(c: Catalog, market: string, operation: string, health: Health): Result<Decision, Fault> {
    if operation == "transactional_write" then
      RouteWrite(c, market, health)
    else if operation == "transactional_read" then
      RouteTransactionalRead(c, market, health)
    else if operation == "non_critical_read" then
      RouteRead(c, market, health)
    else if operation == "notification_delivery" then
      Ok(Decision(false, None, "NOTIFICATION_DEFERRED", true))
    else Err(ContractError)
  }

  // ----- Transactional operations -----

  predicate Transactional(operation: string) {
    operation == "transactional_write" || operation == "transactional_read"
  }

  /** The region that accepts a transactional operation, if one does. */
  function Writer(c: Catalog, market: string, operation: string, health: Health): Option<string> {
    match RouteRequest(c, market, operation, health)
    case Err(_) => None
    case Ok(d) => if d.accepted then d.regionId else None
  }

  /** Region `i` is the one a lookup of `id` reaches. */
  ghost predicate IsLookupOf(regions: seq<Region>, id: string, i: int) {
    && 0 <= i < |regions|
    && regions[i].id == Some(id)
    && forall j :: 0 <= j < i ==> regions[j].id.Some? && regions[j].id != Some(id)
  }

  /** The snapshot itself says that the region is healthy. */
  ghost predicate ReportsHealthy(health: Health, id: string) {
    id in health.regions && health.regions[id].status == Some("healthy")
  }

  /** The snapshot itself says that the region is healthy and ready for transactional work. */
  ghost predicate ReportsReady(health: Health, id: string) {
    && id in health.regions
    && health.regions[id].status == Some("healthy") && health.regions[id].transactionalReady == Some(true)
  }

  /** The region that may take transactional work: the approved promotion, or else the only primary. */
  ghost predicate HasAuthority(c: Catalog, market: string, health: Health, id: string) {
    if health.promotedRegionId != "" then
      && id == health.promotedRegionId
      && id in health.regions && health.regions[id].promotionApproved == Some(true)
      && exists i :: IsLookupOf(c.regions, id, i) && market in c.regions[i].marketCodes
    else
      exists i :: IsOnlyServer(c.regions, market, "primary", i) && c.regions[i].id == Some(id)
  }

  lemma {:induction false} FindRegionIsLookup(regions: seq<Region>, id: string, r: Region)
    ensures FindRegion(regions, id) == Ok(r) <==> exists i :: IsLookupOf(regions, id, i) && regions[i] == r
  {
    if regions == [] || regions[0].id.None? {
    } else {
      var rest := regions[1..];
      if regions[0].id.value == id {
        assert IsLookupOf(regions, id, 0);
      } else {
        FindRegionIsLookup(rest, id, r);
        forall i | IsLookupOf(rest, id, i) ensures IsLookupOf(regions, id, i + 1) {
          assert forall j :: 1 <= j < i + 1 ==> regions[j] == rest[j - 1];
        }
        forall i | IsLookupOf(regions, id, i) ensures IsLookupOf(rest, id, i - 1) {
          assert forall j :: 0 <= j < i - 1 ==> rest[j] == regions[j + 1];
        }
      }
    }
  }

  /** A transactional operation is accepted by a region exactly when it has authority and is ready. */
  lemma AcceptedIffAuthorityIsReady(c: Catalog, market: string, operation: string, health: Health, id: string)
    requires Transactional(operation)
    ensures Writer(c, market, operation, health) == Some(id)
       <==> HasAuthority(c, market, health, id) && ReportsReady(health, id)
  {
    if health.promotedRegionId != "" {
      var promoted := health.promotedRegionId;
      if exists i :: IsLookupOf(c.regions, promoted, i) {
        var i :| IsLookupOf(c.regions, promoted, i);
        FindRegionIsLookup(c.regions, promoted, c.regions[i]);
        assert forall j :: IsLookupOf(c.regions, promoted, j) ==> j == i;
      } else if FindRegion(c.regions, promoted).Ok? {
        FindRegionIsLookup(c.regions, promoted, FindRegion(c.regions, promoted).value);
      }
    } else {
      CountedOneIffOnlyServer(c.regions, market, "primary");
      assert forall i, j ::
          IsOnlyServer(c.regions, market, "primary", i) && IsOnlyServer(c.regions, market, "primary", j)
          ==> i == j;
    }
  }

  /** Transactional routing faults exactly when no region holds authority over the market. */
  lemma FaultsIffNobodyHasAuthority(c: Catalog, market: string, operation: string, health: Health)
    requires Transactional(operation)
    ensures RouteRequest(c, market, operation, health).Err?
       <==> forall id :: !HasAuthority(c, market, health, id)
  {
    var promoted := health.promotedRegionId;
    if promoted != "" {
      if exists i :: IsLookupOf(c.regions, promoted, i) {
        var i :| IsLookupOf(c.regions, promoted, i);
        FindRegionIsLookup(c.regions, promoted, c.regions[i]);
        assert forall j :: IsLookupOf(c.regions, promoted, j) ==> j == i;
        assert HasAuthority(c, market, health, promoted) <==> EffectivePrimary(c, market, health).Ok?;
      } else if FindRegion(c.regions, promoted).Ok? {
        FindRegionIsLookup(c.regions, promoted, FindRegion(c.regions, promoted).value);
      }
    } else {
      CountedOneIffOnlyServer(c.regions, market, "primary");
      forall i | IsOnlyServer(c.regions, market, "primary", i) && c.regions[i].id.Some?
        ensures HasAuthority(c, market, health, c.regions[i].id.value)
      {
      }
    }
  }

  /** A standby takes transactional work only when it is promoted, approved, healthy and ready. */
  lemma StandbyOnlyWhenPromoted(c: Catalog, market: string, operation: string, health: Health, i: nat)
    requires ValidCatalog(c) && Transactional(operation)
    requires i < |c.regions| && c.regions[i].role == "standby" && c.regions[i].id.Some?
    requires Writer(c, market, operation, health) == c.regions[i].id
    ensures var id := c.regions[i].id.value;
            && health.promotedRegionId == id
            && id in health.regions && health.regions[id] == RegionHealth(Some("healthy"), Some(true), Some(true))
            && market in c.regions[i].marketCodes
  {
    AcceptedIffAuthorityIsReady(c, market, operation, health, c.regions[i].id.value);
    assert Keeps(c, UniqueRegionIds);
  }

  /** In one snapshot, transactional reads and writes agree on faults, acceptance and region. */
  lemma ReadsAndWritesAgree(c: Catalog, market: string, health: Health)
    ensures var w, r := RouteRequest(c, market, "transactional_write", health),
                        RouteRequest(c, market, "transactional_read", health);
            && w.Ok? == r.Ok?
            && (w.Err? ==> w.error == r.error)
            && (w.Ok? ==> w.value.accepted == r.value.accepted && w.value.regionId == r.value.regionId)
  {
  }

  datatype Request = Request(operation: string, health: Health)

  function Accepts(c: Catalog, market: string, r: Request): Option<string> {
    if Transactional(r.operation) then Writer(c, market, r.operation, r.health) else None
  }

  /** Two accepted transactional operations of a market meet one region unless the promotion differs. */
  lemma SingleWriter(c: Catalog, market: string, a: Request, b: Request)
    requires Accepts(c, market, a).Some? && Accepts(c, market, b).Some?
    requires a.health.promotedRegionId == b.health.promotedRegionId
    ensures Accepts(c, market, a) == Accepts(c, market, b)
  {
    var x, y := Accepts(c, market, a).value, Accepts(c, market, b).value;
    AcceptedIffAuthorityIsReady(c, market, a.operation, a.health, x);
    AcceptedIffAuthorityIsReady(c, market, b.operation, b.health, y);
  }

  // ----- Whole runs -----

  /** The index of the last accepted transactional operation of a run, or -1. */
  function LastAccepted(c: Catalog, market: string, run: seq<Request>): (i: int)
    ensures -1 <= i < |run|
    ensures i >= 0 ==> Accepts(c, market, run[i]).Some?
  {
    if run == [] then -1
    else if Accepts(c, market, run[|run| - 1]).Some? then |run| - 1
    else LastAccepted(c, market, run[..|run| - 1])
  }

  /** How often the accepting region differs from the previously accepting one. */
  function Handovers(c: Catalog, market: string, run: seq<Request>): nat {
    if run == [] then 0
    else
      var init, last := run[..|run| - 1], Accepts(c, market, run[|run| - 1]);
      var i := LastAccepted(c, market, init);
      Handovers(c, market, init)
        + if last.Some? && i >= 0 && Accepts(c, market, init[i]) != last then 1 else 0
  }

  /** How often the promoted region changes from one snapshot to the next. */
  function PromotionChanges(run: seq<Request>): nat {
    if |run| < 2 then 0
    else
      PromotionChanges(run[..|run| - 1])
        + if run[|run| - 1].health.promotedRegionId != run[|run| - 2].health.promotedRegionId then 1 else 0
  }

  lemma {:induction false} ChangesGrow(run: seq<Request>, i: nat)
    requires i < |run|
    ensures PromotionChanges(run[..i + 1]) <= PromotionChanges(run)
    ensures run[i].health.promotedRegionId != run[|run| - 1].health.promotedRegionId ==>
              PromotionChanges(run[..i + 1]) < PromotionChanges(run)
  {
    if i == |run| - 1 {
      assert run[..i + 1] == run;
    } else {
      ChangesGrow(run[..|run| - 1], i);
      assert run[..|run| - 1][..i + 1] == run[..i + 1];
    }
  }

  /**
   Over any run of snapshots and operations, the writer of a market changes at most as often as
   the operator changes the promotion.
   */
  lemma HandoversNeedPromotions(c: Catalog, market: string, run: seq<Request>)
    ensures Handovers(c, market, run) <= PromotionChanges(run)
  {
    HandoversUpToLastAccepted(c, market, run);
    var i := LastAccepted(c, market, run);
    if i >= 0 {
      ChangesGrow(run, i);
    }
  }

  lemma {:induction false} HandoversUpToLastAccepted(c: Catalog, market: string, run: seq<Request>)
    ensures Handovers(c, market, run) <= PromotionChanges(run[..LastAccepted(c, market, run) + 1])
  {
    if run == [] {
    } else {
      var init, last := run[..|run| - 1], run[|run| - 1];
      HandoversUpToLastAccepted(c, market, init);
      var i := LastAccepted(c, market, init);
      assert init[..i + 1] == run[..i + 1];
      if Accepts(c, market, last).Some? {
        assert run[..|run|] == run;
        if i >= 0 {
          HandoverNeedsPromotion(c, market, run, i);
        }
      }
    }
  }

  lemma HandoverNeedsPromotion(c: Catalog, market: string, run: seq<Request>, i: nat)
    requires i < |run| - 1
    requires Accepts(c, market, run[i]).Some? && Accepts(c, market, run[|run| - 1]).Some?
    ensures PromotionChanges(run[..i + 1]) <= PromotionChanges(run)
    ensures Accepts(c, market, run[i]) != Accepts(c, market, run[|run| - 1]) ==>
              PromotionChanges(run[..i + 1]) < PromotionChanges(run)
  {
    ChangesGrow(run, i);
    if run[i].health.promotedRegionId == run[|run| - 1].health.promotedRegionId {
      SingleWriter(c, market, run[i], run[|run| - 1]);
    }
  }

  // ----- Non-critical reads -----

  /** The region may serve a non-critical read of the market: it is healthy, whatever its readiness. */
  ghost predicate Eligible(r: Region, market: string, health: Health) {
    && market in r.marketCodes && r.lifecycle != "draining"
    && r.id.Some? && ReportsHealthy(health, r.id.value)
  }

  /** Region `i` is eligible, and no eligible region has a higher priority, nor an earlier one the same. */
  ghost predicate IsFirstBest(regions: seq<Region>, market: string, health: Health, i: int) {
    && 0 <= i < |regions|
    && Eligible(regions[i], market, health)
    && (forall j :: 0 <= j < |regions| && Eligible(regions[j], market, health) ==>
          Priority(regions[j]) <= Priority(regions[i]))
    && (forall j :: 0 <= j < i && Eligible(regions[j], market, health) ==>
          Priority(regions[j]) < Priority(regions[i]))
  }

  /** The same in the catalog's own fields, where every eligible region has a priority. */
  ghost predicate IsBestReader(regions: seq<Region>, market: string, health: Health, i: int) {
    && 0 <= i < |regions|
    && Eligible(regions[i], market, health)
    && (forall j :: 0 <= j < |regions| && Eligible(regions[j], market, health) ==>
          && regions[j].priority.Some? && regions[i].priority.Some?
          && regions[j].priority.value <= regions[i].priority.value
          && (j < i ==> regions[j].priority.value < regions[i].priority.value))
  }

  /** What stops a region of the market from being considered: its id, or a priority to sort by. */
  ghost predicate IsIncomplete(r: Region, market: string, health: Health) {
    && market in r.marketCodes && r.lifecycle != "draining"
    && (r.id.None? || (ReportsHealthy(health, r.id.value) && r.priority.None?))
  }

  ghost function EligibleOf(regions: seq<Region>, market: string, health: Health): seq<Region> {
    if regions == [] then []
    else if Eligible(regions[0], market, health) then [regions[0]] + EligibleOf(regions[1..], market, health)
    else EligibleOf(regions[1..], market, health)
  }

  lemma {:induction false} EligibleOfIsExact(regions: seq<Region>, market: string, health: Health)
    ensures forall r :: r in EligibleOf(regions, market, health) <==> r in regions && Eligible(r, market, health)
  {
    if regions == [] {
    } else {
      EligibleOfIsExact(regions[1..], market, health);
      assert regions == [regions[0]] + regions[1..];
    }
  }

  lemma {:induction false} CandidatesAreEligible(regions: seq<Region>, market: string, health: Health)
    ensures ReadCandidates(regions, market, health)
         == if exists r :: r in regions && market in r.marketCodes && r.lifecycle != "draining" && r.id.None?
            then Err(MissingField) else Ok(EligibleOf(regions, market, health))
  {
    if regions == [] {
    } else {
      CandidatesAreEligible(regions[1..], market, health);
      assert forall r :: r in regions <==> r == regions[0] || r in regions[1..];
    }
  }

  /** The head of the sorted candidates is the first region of the highest priority. */
  lemma {:induction false} SortedHead(regions: seq<Region>, market: string, health: Health)
    ensures ByPriority(EligibleOf(regions, market, health)) == []
       <==> forall r :: r in regions ==> !Eligible(r, market, health)
    ensures ByPriority(EligibleOf(regions, market, health)) != [] ==>
              exists i :: IsFirstBest(regions, market, health, i)
                       && regions[i] == ByPriority(EligibleOf(regions, market, health))[0]
  {
    hide Eligible;
    if regions == [] {
    } else {
      var rest := regions[1..];
      SortedHead(rest, market, health);
      assert forall r :: r in regions <==> r == regions[0] || r in rest;
      var sorted := ByPriority(EligibleOf(rest, market, health));
      if sorted == [] {
        FirstOfNone(regions, market, health);
      } else {
        var i :| IsFirstBest(rest, market, health, i) && rest[i] == sorted[0];
        FirstOfSome(regions, market, health, i);
      }
    }
  }

  lemma FirstOfNone(regions: seq<Region>, market: string, health: Health)
    requires regions != [] && forall r :: r in regions[1..] ==> !Eligible(r, market, health)
    ensures Eligible(regions[0], market, health) ==> IsFirstBest(regions, market, health, 0)
  {
    hide Eligible;
    assert forall j :: 0 < j < |regions| ==> regions[j] in regions[1..];
  }

  /** Adding a region in front of the others, the best one stays best unless the new one reaches it. */
  lemma FirstOfSome(regions: seq<Region>, market: string, health: Health, i: nat)
    requires regions != [] && IsFirstBest(regions[1..], market, health, i)
    ensures if Eligible(regions[0], market, health) && Priority(regions[i + 1]) <= Priority(regions[0])
            then IsFirstBest(regions, market, health, 0) else IsFirstBest(regions, market, health, i + 1)
  {
    hide Eligible;
    assert forall j :: 0 < j < |regions| ==> regions[j] == regions[1..][j - 1];
  }

  /** A non-critical read faults exactly on an incomplete region. */
  lemma ReadsFaultIff(c: Catalog, market: string, health: Health)
    ensures RouteRequest(c, market, "non_critical_read", health).Err?
       <==> exists r :: r in c.regions && IsIncomplete(r, market, health)
  {
    CandidatesAreEligible(c.regions, market, health);
    EligibleOfIsExact(c.regions, market, health);
    var eligible := EligibleOf(c.regions, market, health);
    assert forall i :: 0 <= i < |eligible| ==> eligible[i] in eligible;
  }

  /** A read that does not fault goes to the first best reader, and is refused only when there is none. */
  lemma ReadsAreOptimal(c: Catalog, market: string, health: Health)
    ensures match RouteRequest(c, market, "non_critical_read", health)
            case Err(e) => e == MissingField
            case Ok(d) =>
              if d.accepted then
                exists i :: IsBestReader(c.regions, market, health, i) && d.regionId == c.regions[i].id
                            && (d.degraded <==> c.regions[i].role != "primary")
              else forall r :: r in c.regions ==> !Eligible(r, market, health)
  {
    CandidatesAreEligible(c.regions, market, health);
    SortedHead(c.regions, market, health);
    ReadsFaultIff(c, market, health);
    if RouteRequest(c, market, "non_critical_read", health).Ok? {
      forall i | IsFirstBest(c.regions, market, health, i) ensures IsBestReader(c.regions, market, health, i) {
        assert forall j :: 0 <= j < |c.regions| ==> c.regions[j] in c.regions;
      }
    }
  }

  /** If transactional work is accepted by a region that is not draining, reads are accepted too. */
  lemma TransactionalImpliesRead(c: Catalog, market: string, operation: string, health: Health, i: nat)
    requires ValidCatalog(c) && Transactional(operation)
    requires i < |c.regions| && c.regions[i].id.Some? && c.regions[i].lifecycle != "draining"
    requires Writer(c, market, operation, health) == c.regions[i].id
    ensures RouteRequest(c, market, "non_critical_read", health).Ok? ==>
              RouteRequest(c, market, "non_critical_read", health).value.accepted
  {
    var id := c.regions[i].id.value;
    AcceptedIffAuthorityIsReady(c, market, operation, health, id);
    assert Keeps(c, UniqueRegionIds);
    ReadsAreOptimal(c, market, health);
    assert c.regions[i] in c.regions && Eligible(c.regions[i], market, health);
  }

  // ----- Decisions -----

  /** The code that a decision on a supported operation carries. */
  function ReasonCode(operation: string, accepted: bool): string {
    match operation
    case "transactional_write" => if accepted then "ROUTED_TO_APPROVED_PRIMARY" else "REGION_PRIMARY_UNAVAILABLE"
    case "transactional_read" => if accepted then "ROUTED_TO_PRIMARY" else "REGION_READ_NOT_READY"
    case "non_critical_read" => if accepted then "REGION_DEGRADED_READ_ONLY" else "NO_HEALTHY_REGION"
    case _ => "NOTIFICATION_DEFERRED"
  }

  /** The decision names a region exactly when it accepts, a refusal is degraded, and the code fits both. */
  predicate FailsClosed(operation: string, d: Decision) {
    && (d.accepted <==> d.regionId.Some?)
    && (!d.accepted ==> d.degraded)
    && d.reasonCode == ReasonCode(operation, d.accepted)
    && (Transactional(operation) ==> (d.degraded <==> !d.accepted))
    && (operation == "notification_delivery" ==> !d.accepted)
  }

  const SUPPORTED := ["transactional_write", "transactional_read", "non_critical_read", "notification_delivery"]

  /** Unsupported operations are faults, and every decision fails closed. */
  lemma DecisionsFailClosed(c: Catalog, market: string, operation: string, health: Health)
    ensures operation !in SUPPORTED ==> RouteRequest(c, market, operation, health) == Err(ContractError)
    ensures RouteRequest(c, market, operation, health).Ok? ==>
              FailsClosed(operation, RouteRequest(c, market, operation, health).value)
  {
    hide EffectivePrimary, IsHealthy, RouteRead;
    if operation == "non_critical_read" {
      ReadsFailClosed(c, market, health);
    }
    assert SUPPORTED[0] == "transactional_write" && SUPPORTED[1] == "transactional_read";
    assert SUPPORTED[2] == "non_critical_read" && SUPPORTED[3] == "notification_delivery";
  }

  lemma ReadsFailClosed(c: Catalog, market: string, health: Health)
    ensures RouteRead(c, market, health).Ok? ==> FailsClosed("non_critical_read", RouteRead(c, market, health).value)
  {
    hide IsHealthy;
    CandidatesAreEligible(c.regions, market, health);
    SortedHead(c.regions, market, health);
  }

  // ----- Totality -----

  /** The configured primary of the market has no id. */
  ghost predicate PrimaryIsAnonymous(c: Catalog, market: string) {
    exists i :: IsOnlyServer(c.regions, market, "primary", i) && c.regions[i].id.None?
  }

  /**
   With no promotion, routing a market of a valid catalog faults only on a field the validator
   does not ask for: the primary's id, or a considered region's id or priority.
   */
  lemma UnpromotedRoutingFaultsIff(c: Catalog, market: string, operation: string, health: Health)
    requires ValidCatalog(c) && market in Markets(c.regions) && health.promotedRegionId == ""
    requires operation in SUPPORTED
    ensures RouteRequest(c, market, operation, health).Err?
       <==> || (Transactional(operation) && PrimaryIsAnonymous(c, market))
            || (operation == "non_critical_read" && exists r :: r in c.regions && IsIncomplete(r, market, health))
  {
    ReadsFaultIff(c, market, health);
    CountedOneIffOnlyServer(c.regions, market, "primary");
    assert Keeps(c, OnePrimaryPerMarket);
    assert MarketIsCovered(c.regions, market);
    var i :| IsOnlyServer(c.regions, market, "primary", i);
    assert forall j :: IsOnlyServer(c.regions, market, "primary", j) ==> j == i;
  }

  /** So routing is total on valid catalogs whose regions all carry an id and a priority. */
  lemma CompleteCatalogsNeverFault(c: Catalog, market: string, operation: string, health: Health)
    requires ValidCatalog(c) && market in Markets(c.regions) && health.promotedRegionId == ""
    requires operation in SUPPORTED
    requires forall r :: r in c.regions ==> r.id.Some? && r.priority.Some?
    ensures RouteRequest(c, market, operation, health).Ok?
  {
    UnpromotedRoutingFaultsIff(c, market, operation, health);
  }

  /** The validator alone does not give totality: a priority may be missing. */
  lemma ValidCatalogMayFault() returns (c: Catalog, health: Health)
    ensures ValidCatalog(c) && "m" in Markets(c.regions) && health.promotedRegionId == ""
    ensures RouteRequest(c, "m", "non_critical_read", health) == Err(MissingField)
  {
    var primary := Region(Some("p"), ["m"], "primary", "active", None, "P_URL", Some(true));
    var standby := Region(Some("s"), ["m"], "standby", "standby", Some(90), "S_URL", Some(false));
    c := Catalog("2026.09.08", Some(RoutingPolicy(Some(true), ["orders"])), [primary, standby],
                 [Dataset("orders", "market_home_region", "synchronous", Some(0), Some(60), [], [])],
                 "none", Some(true), Some(false), "event_id", "aggregate_id", "consumer_idempotency_required");
    health := Health("", map["p" := RegionHealth(Some("healthy"), Some(true), None)]);
    assert c.regions[0].marketCodes[0] == "m";
    assert IsOnlyServer(c.regions, "m", "primary", 0) && "m" in c.regions[1].marketCodes;
    assert forall m :: m in Markets(c.regions) ==> m == "m";
    forall rule ensures Keeps(c, rule) {
    }
    assert primary in c.regions && IsIncomplete(primary, "m", health);
    ReadsFaultIff(c, "m", health);
    ReadsAreOptimal(c, "m", health);
  }
}
