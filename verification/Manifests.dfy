/** Lifecycle status of experience manifests over time, and the overview's tallies. */
module Manifests {
  import opened Outcomes
  import opened Sums
  import opened Versions

  datatype State = Draft | Published | Superseded | RolledBack

  datatype Manifest = Manifest(
    state: State,
    startsAt: int,
    endsAt: Option<int>,
    isCanary: bool,
    killSwitchActive: bool,
    requiresApproval: bool,
    approvalPending: bool,
    minAppVersion: string,
    maxAppVersion: string)

  datatype Status =
    | ROLLED_BACK | AWAITING_APPROVAL | EXPIRED | KILL_SWITCHED | SCHEDULED | CANARY | LIVE
    | DRAFT | PUBLISHED | SUPERSEDED

  function StateName(state: State): Status {
    match state
    case Draft => DRAFT
    case Published => PUBLISHED
    case Superseded => SUPERSEDED
    case RolledBack => ROLLED_BACK
  }

  function StatusFor(m: Manifest, now: int): Status {
    if m.state == RolledBack then ROLLED_BACK
    else if m.state == Draft && m.requiresApproval && m.approvalPending then AWAITING_APPROVAL
    else if m.endsAt.Some? && m.endsAt.value <= now then EXPIRED
    else if m.state == Published && m.killSwitchActive then KILL_SWITCHED
    else if m.startsAt > now then SCHEDULED
    else if m.isCanary && m.state == Published && !m.killSwitchActive then CANARY
    else if m.state == Published && !m.killSwitchActive then LIVE
    else StateName(m.state)
  }

  // ----- Time -----

  /** Before the start, in between, after the end. */
  function Phase(s: Status): int {
    match s
    case SCHEDULED => 0
    case EXPIRED => 2
    case _ => 1
  }

  /**
   Time only moves a manifest forward through its phases, and within a phase its status is fixed:
   so EXPIRED is final, SCHEDULED never returns, and a manifest has at most three statuses ever.
   */
  lemma LifecycleNeverGoesBack(m: Manifest, earlier: int, later: int)
    requires earlier <= later
    ensures Phase(StatusFor(m, earlier)) <= Phase(StatusFor(m, later))
    ensures Phase(StatusFor(m, earlier)) == Phase(StatusFor(m, later)) ==> StatusFor(m, earlier) == StatusFor(m, later)
    ensures StatusFor(m, earlier) == EXPIRED ==> StatusFor(m, later) == EXPIRED
    ensures StatusFor(m, later) == SCHEDULED ==> StatusFor(m, earlier) == SCHEDULED
  {
  }

  /** The end has passed. */
  predicate HasEnded(m: Manifest, now: int) {
    m.endsAt.Some? && m.endsAt.value <= now
  }

  /** Neither rolled back nor a draft that waits for approval: time decides the status. */
  predicate IsOnTheClock(m: Manifest) {
    m.state != RolledBack && !(m.state == Draft && m.requiresApproval && m.approvalPending)
  }

  /** Started, not ended, and not switched off. */
  predicate IsRunning(m: Manifest, now: int) {
    m.startsAt <= now && !HasEnded(m, now) && !m.killSwitchActive
  }

  /** What each status of the overview means, independently of the order of the tests. */
  lemma StatusMeaning(m: Manifest, now: int)
    ensures StatusFor(m, now) == EXPIRED <==> IsOnTheClock(m) && HasEnded(m, now)
    ensures StatusFor(m, now) == KILL_SWITCHED <==> m.state == Published && m.killSwitchActive && !HasEnded(m, now)
    ensures StatusFor(m, now) == SCHEDULED <==>
      IsOnTheClock(m) && m.startsAt > now && !HasEnded(m, now) && !(m.state == Published && m.killSwitchActive)
    ensures StatusFor(m, now) == CANARY <==> IsRunning(m, now) && m.state == Published && m.isCanary
    ensures StatusFor(m, now) == LIVE <==> IsRunning(m, now) && m.state == Published && !m.isCanary
    ensures StatusFor(m, now) == ROLLED_BACK <==> m.state == RolledBack
    ensures StatusFor(m, now) == AWAITING_APPROVAL <==> m.state == Draft && m.requiresApproval && m.approvalPending
    ensures StatusFor(m, now) == DRAFT <==>
      m.state == Draft && !(m.requiresApproval && m.approvalPending) && m.startsAt <= now && !HasEnded(m, now)
    ensures StatusFor(m, now) == SUPERSEDED <==> m.state == Superseded && m.startsAt <= now && !HasEnded(m, now)
    ensures StatusFor(m, now) != PUBLISHED
  {
  }

  ghost predicate IsTimeline(instants: seq<int>) {
    forall i, j :: 0 <= i < j < |instants| ==> instants[i] <= instants[j]
  }

  /** How often the status differs from the one at the instant before. */
  function StatusChanges(m: Manifest, instants: seq<int>): nat {
    if |instants| < 2 then 0
    else
      var n := |instants| - 1;
      StatusChanges(m, instants[..n])
        + if StatusFor(m, instants[n]) != StatusFor(m, instants[n - 1]) then 1 else 0
  }

  /** Over any timeline each change of status is a step up in phase, so there are at most two. */
  lemma {:induction false} StatusChangesAtMostTwice(m: Manifest, instants: seq<int>)
    requires IsTimeline(instants) && instants != []
    ensures StatusChanges(m, instants)
         <= Phase(StatusFor(m, instants[|instants| - 1])) - Phase(StatusFor(m, instants[0]))
         <= 2
  {
    if |instants| < 2 {
    } else {
      var n := |instants| - 1;
      StatusChangesAtMostTwice(m, instants[..n]);
      LifecycleNeverGoesBack(m, instants[n - 1], instants[n]);
    }
  }

  // ----- Tallies -----

  /** How many manifests have a status. */
  function CountOf(ms: seq<Manifest>, now: int, s: Status): nat {
    if ms == [] then 0
    else CountOf(ms[..|ms| - 1], now, s) + if StatusFor(ms[|ms| - 1], now) == s then 1 else 0
  }

  /** Over time, expired manifests only get more and scheduled ones only fewer. */
  lemma {:induction false} ExpiryOnlyGrows(ms: seq<Manifest>, earlier: int, later: int)
    requires earlier <= later
    ensures CountOf(ms, earlier, EXPIRED) <= CountOf(ms, later, EXPIRED)
    ensures CountOf(ms, later, SCHEDULED) <= CountOf(ms, earlier, SCHEDULED)
  {
    if ms == [] {
    } else {
      ExpiryOnlyGrows(ms[..|ms| - 1], earlier, later);
      LifecycleNeverGoesBack(ms[|ms| - 1], earlier, later);
    }
  }

  /** The number of manifests per status that occurs; the tallies sum to the number of manifests. */
  method TallyStates(ms: seq<Manifest>, now: int) returns (states: map<Status, nat>)
    ensures forall s :: s in states <==> CountOf(ms, now, s) > 0
    ensures forall s :: s in states ==> states[s] == CountOf(ms, now, s)
    ensures Sum(states) == |ms|
  {
    states := map[];
    for i := 0 to |ms|
      invariant forall s :: s in states <==> CountOf(ms[..i], now, s) > 0
      invariant forall s :: s in states ==> states[s] == CountOf(ms[..i], now, s)
      invariant Sum(states) == i
    {
      assert ms[..i + 1][..i] == ms[..i];
      var status := StatusFor(ms[i], now);
      var count := (if status in states then states[status] else 0) + 1;
      SumAfterUpdate(states, status, count);
      states := states[status := count];
    }
    assert ms[..|ms|] == ms;
  }

  ghost predicate IsDisplayed(m: Manifest, version: string, number: Numbering) {
    Supports(m.minAppVersion, m.maxAppVersion, version, number)
  }

  /** The manifests on one side of the version filter, in their original order. */
  ghost function Filtered(ms: seq<Manifest>, version: string, number: Numbering, displayed: bool): seq<Manifest> {
    if ms == [] then []
    else
      var init, last := Filtered(ms[..|ms| - 1], version, number, displayed), ms[|ms| - 1];
      if IsDisplayed(last, version, number) == displayed then init + [last] else init
  }

  /** Splits the fetched manifests by the version filter; nothing is lost, repeated or reordered. */
  method ScopeFilter(raw: seq<Manifest>, version: string, number: Numbering)
    returns (displayed: seq<Manifest>, unsupported: seq<Manifest>)
    ensures displayed == Filtered(raw, version, number, true)
    ensures unsupported == Filtered(raw, version, number, false)
    ensures multiset(displayed) + multiset(unsupported) == multiset(raw)
    ensures |displayed| + |unsupported| == |raw|
    ensures forall m :: m in displayed ==> IsDisplayed(m, version, number)
    ensures forall m :: m in unsupported ==> !IsDisplayed(m, version, number)
  {
    displayed, unsupported := [], [];
    for i := 0 to |raw|
      invariant displayed == Filtered(raw[..i], version, number, true)
      invariant unsupported == Filtered(raw[..i], version, number, false)
    {
      assert raw[..i + 1][..i] == raw[..i];
      var supported := SupportsAppVersion(raw[i].minAppVersion, raw[i].maxAppVersion, version, number);
      if supported {
        displayed := displayed + [raw[i]];
      } else {
        unsupported := unsupported + [raw[i]];
      }
    }
    assert raw[..|raw|] == raw;
    FilterPartitions(raw, version, number);
    FilterSelects(raw, version, number, true);
    FilterSelects(raw, version, number, false);
  }

  lemma {:induction false} FilterPartitions(ms: seq<Manifest>, version: string, number: Numbering)
    ensures multiset(Filtered(ms, version, number, true)) + multiset(Filtered(ms, version, number, false))
         == multiset(ms)
    ensures |Filtered(ms, version, number, true)| + |Filtered(ms, version, number, false)| == |ms|
  {
    if ms == [] {
    } else {
      hide IsDisplayed;
      var init, last := ms[..|ms| - 1], ms[|ms| - 1];
      FilterPartitions(init, version, number);
      assert ms == init + [last];
      PartitionSnoc(init, Filtered(init, version, number, true), Filtered(init, version, number, false), last);
    }
  }

  lemma PartitionSnoc(ms: seq<Manifest>, a: seq<Manifest>, b: seq<Manifest>, m: Manifest)
    requires multiset(a) + multiset(b) == multiset(ms)
    ensures multiset(a + [m]) + multiset(b) == multiset(ms + [m])
    ensures multiset(a) + multiset(b + [m]) == multiset(ms + [m])
  {
  }

  lemma {:induction false} FilterSelects(ms: seq<Manifest>, version: string, number: Numbering, displayed: bool)
    ensures forall m :: m in Filtered(ms, version, number, displayed) ==> IsDisplayed(m, version, number) == displayed
  {
    if ms == [] {
    } else {
      FilterSelects(ms[..|ms| - 1], version, number, displayed);
    }
  }

  /** What the overview shows at one instant accounts for every fetched manifest. */
  method Overview(raw: seq<Manifest>, version: string, number: Numbering, now: int)
    returns (displayed: seq<Manifest>, unsupported: seq<Manifest>, states: map<Status, nat>)
    ensures Sum(states) + |unsupported| == |raw|
    ensures Sum(states) == |displayed|
    ensures forall s :: s in states ==> states[s] == CountOf(displayed, now, s)
    ensures forall m :: m in displayed ==> IsDisplayed(m, version, number)
  {
    displayed, unsupported := ScopeFilter(raw, version, number);
    states := TallyStates(displayed, now);
  }
}
