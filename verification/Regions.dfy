/** The region catalog: its data, the rules it must keep, and the validator. */
module Regions {
  import opened Outcomes
  import opened FirstSeen

  /**
   One region entry. `id`, `priority` and `transactionalWrites` are optional because the file may
   leave them out; a text or list that is left out is empty.
   */
  datatype Region = Region(
    id: Option<string>,
    marketCodes: seq<string>,
    role: string,
    lifecycle: string,
    priority: Option<int>,
    apiBaseUrlEnv: string,
    transactionalWrites: Option<bool>)

  datatype RoutingPolicy = RoutingPolicy(approvalRequired: Option<bool>, failClosedWriteDomains: seq<string>)

  datatype Dataset = Dataset(
    domain: string,
    affinity: string,
    replication: string,
    rpoMinutes: Option<int>,
    rtoMinutes: Option<int>,
    residentFields: seq<string>,
    crossRegionFields: seq<string>)

  datatype Catalog = Catalog(
    schemaVersion: string,
    routing: Option<RoutingPolicy>,
    regions: seq<Region>,
    datasets: seq<Dataset>,
    writeFallbackRegion: string,
    writeRequiresIdempotencyKey: Option<bool>,
    notificationSuccessWithoutAck: Option<bool>,
    replayDedupeKey: string,
    replayOrderingKey: string,
    replaySideEffectPolicy: string)

  /** The rules of the contract, in the order the validator checks them. */
  datatype Rule =
    | SchemaVersion | RoutingPresent | ApprovalRequired | WriteFence
    | TwoRegions | UniqueRegionIds | RegionShape | OnePrimaryPerMarket
    | DatasetsPresent | DatasetShape
    | NoWriteFallback | WriteIdempotency | NoFabricatedSuccess | ReplayKeys | ReplaySideEffects

  predicate Serves(r: Region, market: string, role: string) {
    market in r.marketCodes && r.role == role
  }

  /** The regions of a role that serve a market, in catalog order. */
  function Serving(regions: seq<Region>, market: string, role: string): seq<Region> {
    if regions == [] then []
    else if Serves(regions[0], market, role) then [regions[0]] + Serving(regions[1..], market, role)
    else Serving(regions[1..], market, role)
  }

  function Markets(regions: seq<Region>): set<string> {
    set i, j | 0 <= i < |regions| && 0 <= j < |regions[i].marketCodes| :: regions[i].marketCodes[j]
  }

  /** Region `i` lists the market in this role, and no other region does. */
  ghost predicate IsOnlyServer(regions: seq<Region>, market: string, role: string, i: int) {
    && 0 <= i < |regions|
    && market in regions[i].marketCodes && regions[i].role == role
    && forall j :: 0 <= j < |regions| && j != i ==> !(market in regions[j].marketCodes && regions[j].role == role)
  }

  ghost predicate MarketIsCovered(regions: seq<Region>, market: string) {
    && (exists i :: IsOnlyServer(regions, market, "primary", i))
    && (exists i :: 0 <= i < |regions| && market in regions[i].marketCodes && regions[i].role == "standby")
  }

  ghost predicate WellShapedRegion(r: Region) {
    && (r.role == "primary" || (r.role == "standby" && r.transactionalWrites == Some(false)))
    && (r.lifecycle == "active" || r.lifecycle == "standby" || r.lifecycle == "draining")
    && r.marketCodes != []
    && r.apiBaseUrlEnv != ""
  }

  ghost predicate WellShapedDataset(d: Dataset) {
    && d.domain != "" && d.affinity != "" && d.replication != ""
    && d.rpoMinutes.Some? && d.rpoMinutes.value >= 0
    && d.rtoMinutes.Some? && d.rtoMinutes.value > 0
    && forall f :: f in d.residentFields ==> f !in d.crossRegionFields
  }

  ghost predicate Keeps(c: Catalog, rule: Rule) {
    match rule
    case SchemaVersion => c.schemaVersion == "2026.09.08"
    case RoutingPresent => c.routing.Some?
    case ApprovalRequired => c.routing.Some? && c.routing.value.approvalRequired == Some(true)
    case WriteFence => c.routing.Some? && c.routing.value.failClosedWriteDomains != []
    case TwoRegions => |c.regions| >= 2
    case UniqueRegionIds => forall i, j :: 0 <= i < j < |c.regions| ==> c.regions[i].id != c.regions[j].id
    case RegionShape => forall i :: 0 <= i < |c.regions| ==> WellShapedRegion(c.regions[i])
    case OnePrimaryPerMarket =>
      forall i, m :: 0 <= i < |c.regions| && m in c.regions[i].marketCodes ==> MarketIsCovered(c.regions, m)
    case DatasetsPresent => c.datasets != []
    case DatasetShape =>
      && (forall i :: 0 <= i < |c.datasets| ==> WellShapedDataset(c.datasets[i]))
      && (forall i, j :: 0 <= i < j < |c.datasets| ==> c.datasets[i].domain != c.datasets[j].domain)
    case NoWriteFallback => c.writeFallbackRegion == "none"
    case WriteIdempotency => c.writeRequiresIdempotencyKey == Some(true)
    case NoFabricatedSuccess => c.notificationSuccessWithoutAck == Some(false)
    case ReplayKeys => c.replayDedupeKey != "" && c.replayOrderingKey != ""
    case ReplaySideEffects => c.replaySideEffectPolicy == "consumer_idempotency_required"
  }

  /** The validator's order of checking. */
  function Order(rule: Rule): nat {
    match rule
    case SchemaVersion => 0
    case RoutingPresent => 1
    case ApprovalRequired => 2
    case WriteFence => 3
    case TwoRegions => 4
    case UniqueRegionIds => 5
    case RegionShape => 6
    case OnePrimaryPerMarket => 7
    case DatasetsPresent => 8
    case DatasetShape => 9
    case NoWriteFallback => 10
    case WriteIdempotency => 11
    case NoFabricatedSuccess => 12
    case ReplayKeys => 13
    case ReplaySideEffects => 14
  }

  ghost predicate ValidCatalog(c: Catalog) {
    forall rule :: Keeps(c, rule)
  }

  lemma {:induction false} ServingIsExact(regions: seq<Region>, market: string, role: string)
    ensures forall r :: r in Serving(regions, market, role) <==>
      r in regions && market in r.marketCodes && r.role == role
  {
    if regions == [] {
    } else {
      ServingIsExact(regions[1..], market, role);
      assert regions == [regions[0]] + regions[1..];
    }
  }

  /** Counting one server of a market is the same as one region being its only server. */
  lemma {:induction false} CountedOneIffOnlyServer(regions: seq<Region>, market: string, role: string)
    ensures |Serving(regions, market, role)| == 1 <==> exists i :: IsOnlyServer(regions, market, role, i)
    ensures forall i :: IsOnlyServer(regions, market, role, i) ==> Serving(regions, market, role) == [regions[i]]
  {
    if regions == [] {
    } else {
      var rest := regions[1..];
      CountedOneIffOnlyServer(rest, market, role);
      ServingIsExact(rest, market, role);
      assert forall j :: 0 <= j < |rest| ==> rest[j] == regions[j + 1];
      assert forall j :: 0 <= j < |rest| ==> rest[j] in rest;
      if Serves(regions[0], market, role) {
        if Serving(rest, market, role) == [] {
          assert IsOnlyServer(regions, market, role, 0);
        } else {
          var r := Serving(rest, market, role)[0];
          assert r in Serving(rest, market, role);
          var j :| 0 <= j < |rest| && rest[j] == r;
          assert Serves(regions[j + 1], market, role);
        }
      } else {
        forall i | IsOnlyServer(rest, market, role, i) ensures IsOnlyServer(regions, market, role, i + 1) {
          forall j | 0 <= j < |regions| && j != i + 1 ensures !Serves(regions[j], market, role) {
            if j > 0 { assert rest[j - 1] == regions[j]; }
          }
        }
        forall i | IsOnlyServer(regions, market, role, i) ensures IsOnlyServer(rest, market, role, i - 1) {
        }
      }
    }
  }

  function IdOf(r: Region): Option<string> { r.id }

  function RegionIds(regions: seq<Region>): set<Option<string>> {
    set i | 0 <= i < |regions| :: regions[i].id
  }

  /** The validator compares the number of ids with the number of distinct ids. */
  lemma IdCountIffUnique(regions: seq<Region>)
    ensures |regions| == |RegionIds(regions)|
       <==> forall i, j :: 0 <= i < j < |regions| ==> regions[i].id != regions[j].id
  {
    AsManyKeysIffDistinct(regions, IdOf);
    assert RegionIds(regions) == KeySet(regions, IdOf);
    var ids := Keys(regions, IdOf);
    assert |ids| == |regions| && forall i :: 0 <= i < |ids| ==> ids[i] == regions[i].id;
  }

  /** The rules from position `from` up to `to`, checked in order, gave this result. */
  ghost predicate IsFirstBroken(c: Catalog, from: nat, to: nat, r: Option<Rule>) {
    match r
    case None => forall rule :: from <= Order(rule) < to ==> Keeps(c, rule)
    case Some(broken) =>
      && from <= Order(broken) < to && !Keeps(c, broken)
      && forall rule :: from <= Order(rule) < Order(broken) ==> Keeps(c, rule)
  }

  /** Checks the rules in order; a rejection names the first rule that is broken. */
  method ValidateCatalog(c: Catalog) returns (r: Result<(), Rule>)
    ensures r.Err? ==> !Keeps(c, r.error) && forall rule :: Order(rule) < Order(r.error) ==> Keeps(c, rule)
    ensures r.Ok? <==> ValidCatalog(c)
  {
    hide Keeps;
    var header := CheckHeader(c);
    if header.Some? { return Err(header.value); }
    var regions := CheckRegions(c);
    if regions.Some? { return Err(regions.value); }
    var datasets := CheckDatasets(c);
    if datasets.Some? { return Err(datasets.value); }
    var policies := CheckPolicies(c);
    if policies.Some? { return Err(policies.value); }
    return Ok(());
  }

  method CheckHeader(c: Catalog) returns (r: Option<Rule>)
    ensures IsFirstBroken(c, 0, 5, r)
  {
    if c.schemaVersion != "2026.09.08" { return Some(SchemaVersion); }
    if c.routing.None? { return Some(RoutingPresent); }
    if c.routing.value.approvalRequired != Some(true) { return Some(ApprovalRequired); }
    if c.routing.value.failClosedWriteDomains == [] { return Some(WriteFence); }
    if |c.regions| < 2 { return Some(TwoRegions); }
    return None;
  }

  method CheckRegions(c: Catalog) returns (r: Option<Rule>)
    ensures IsFirstBroken(c, 5, 8, r)
  {
    IdCountIffUnique(c.regions);
    if |c.regions| != |RegionIds(c.regions)| { return Some(UniqueRegionIds); }
    for i := 0 to |c.regions|
      invariant forall k :: 0 <= k < i ==> WellShapedRegion(c.regions[k])
    {
      var region := c.regions[i];
      if region.role !in ["primary", "standby"] { return Some(RegionShape); }
      if region.lifecycle !in ["active", "standby", "draining"] { return Some(RegionShape); }
      if region.marketCodes == [] || region.apiBaseUrlEnv == "" { return Some(RegionShape); }
      if region.role == "standby" && region.transactionalWrites != Some(false) { return Some(RegionShape); }
    }
    var covered := MarketsAreCovered(c.regions);
    if !covered { return Some(OnePrimaryPerMarket); }
    return None;
  }

  method CheckDatasets(c: Catalog) returns (r: Option<Rule>)
    ensures IsFirstBroken(c, 8, 10, r)
  {
    if c.datasets == [] { return Some(DatasetsPresent); }
    var datasets := DatasetsAreWellShaped(c.datasets);
    if !datasets { return Some(DatasetShape); }
    return None;
  }

  method CheckPolicies(c: Catalog) returns (r: Option<Rule>)
    ensures IsFirstBroken(c, 10, 15, r)
  {
    if c.writeFallbackRegion != "none" { return Some(NoWriteFallback); }
    if c.writeRequiresIdempotencyKey != Some(true) { return Some(WriteIdempotency); }
    if c.notificationSuccessWithoutAck != Some(false) { return Some(NoFabricatedSuccess); }
    if c.replayDedupeKey == "" || c.replayOrderingKey == "" { return Some(ReplayKeys); }
    if c.replaySideEffectPolicy != "consumer_idempotency_required" { return Some(ReplaySideEffects); }
    return None;
  }

  method MarketsAreCovered(regions: seq<Region>) returns (covered: bool)
    ensures covered <==>
      forall i, m :: 0 <= i < |regions| && m in regions[i].marketCodes ==> MarketIsCovered(regions, m)
  {
    var pending := Markets(regions);
    MarketsIff(regions);
    while pending != {}
      invariant pending <= Markets(regions)
      invariant forall m :: m in Markets(regions) - pending ==> MarketIsCovered(regions, m)
      decreases pending
    {
      var market :| market in pending;
      var i :| 0 <= i < |regions| && market in regions[i].marketCodes;
      CountedOneIffOnlyServer(regions, market, "primary");
      ServingIsExact(regions, market, "standby");
      if |Serving(regions, market, "primary")| != 1 || |Serving(regions, market, "standby")| < 1 {
        assert forall i :: 0 <= i < |regions| && market in regions[i].marketCodes && regions[i].role == "standby" ==>
                 regions[i] in Serving(regions, market, "standby");
        assert !MarketIsCovered(regions, market);
        assert market in regions[i].marketCodes;
        return false;
      }
      assert Serving(regions, market, "standby")[0] in regions;
      pending := pending - {market};
    }
    return true;
  }

  lemma MarketsIff(regions: seq<Region>)
    ensures forall m :: m in Markets(regions) <==> exists i :: 0 <= i < |regions| && m in regions[i].marketCodes
  {
    forall i, m | 0 <= i < |regions| && m in regions[i].marketCodes ensures m in Markets(regions) {
      var j :| 0 <= j < |regions[i].marketCodes| && regions[i].marketCodes[j] == m;
    }
  }

  method DatasetsAreWellShaped(datasets: seq<Dataset>) returns (ok: bool)
    ensures ok <==> && (forall i :: 0 <= i < |datasets| ==> WellShapedDataset(datasets[i]))
                    && (forall i, j :: 0 <= i < j < |datasets| ==> datasets[i].domain != datasets[j].domain)
  {
    var domains: set<string> := {};
    for i := 0 to |datasets|
      invariant domains == set k | 0 <= k < i :: datasets[k].domain
      invariant forall k :: 0 <= k < i ==> WellShapedDataset(datasets[k])
      invariant forall k, l :: 0 <= k < l < i ==> datasets[k].domain != datasets[l].domain
    {
      var d := datasets[i];
      if d.domain == "" || d.domain in domains { return false; }
      domains := domains + {d.domain};
      if d.affinity == "" || d.replication == "" { return false; }
      if d.rpoMinutes.None? || d.rpoMinutes.value < 0 { return false; }
      if d.rtoMinutes.None? || d.rtoMinutes.value <= 0 { return false; }
      var resident, crossing := set f | f in d.residentFields, set f | f in d.crossRegionFields;
      if resident * crossing != {} {
        var f :| f in resident * crossing;
        return false;
      }
      assert forall f :: f in d.residentFields && f in d.crossRegionFields ==> f in resident * crossing;
    }
    return true;
  }
}
