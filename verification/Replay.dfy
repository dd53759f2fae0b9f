/** Outbox replay: suppression of repeated events and of repeated mutations. */
module Replay {
  import opened FirstSeen

  datatype Event = Event(eventId: string, operationKey: string)

  function EventId(e: Event): string { e.eventId }

  function OperationKey(e: Event): string { e.operationKey }

  /** Everything the loop carries from one event to the next. */
  datatype Progress = Progress(
    processed: set<string>,
    operationKeys: set<string>,
    duplicateEvents: nat,
    duplicateMutations: nat,
    applied: seq<string>)

  const NOTHING_REPLAYED := Progress({}, {}, 0, 0, [])

  function Step(p: Progress, e: Event): Progress {
    if e.eventId in p.processed then
      p.(duplicateEvents := p.duplicateEvents + 1)
    else if e.operationKey in p.operationKeys then
      p.(processed := p.processed + {e.eventId}, duplicateMutations := p.duplicateMutations + 1)
    else
      p.(processed := p.processed + {e.eventId},
         operationKeys := p.operationKeys + {e.operationKey},
         applied := p.applied + [e.operationKey])
  }

  /** Replaying `events` on top of the progress `p`. */
  function Run(p: Progress, events: seq<Event>): Progress {
    if events == [] then p
    else Step(Run(p, events[..|events| - 1]), events[|events| - 1])
  }

  /** The two-pass reading: first one event per id, then one mutation per operation key. */
  ghost function TwoPass(events: seq<Event>): seq<Event> {
    FirstBy(FirstBy(events, EventId), OperationKey)
  }

  ghost function AppliedSet(events: seq<Event>): set<string> {
    set k | k in Run(NOTHING_REPLAYED, events).applied
  }

  /** The replay loop's state, kept as an object so that a replay can be resumed. */
  class Replayer {
    var processed: set<string>
    var operationKeys: set<string>
    var duplicateEvents: nat
    var duplicateMutations: nat
    var applied: seq<string>

    ghost function State(): Progress
      reads this
    {
      Progress(processed, operationKeys, duplicateEvents, duplicateMutations, applied)
    }

    constructor ()
      ensures State() == NOTHING_REPLAYED
    {
      processed, operationKeys := {}, {};
      duplicateEvents, duplicateMutations := 0, 0;
      applied := [];
    }

    method Deliver(event: Event)
      modifies this
      ensures State() == Step(old(State()), event)
    {
      if event.eventId in processed {
        duplicateEvents := duplicateEvents + 1;
        return;
      }
      processed := processed + {event.eventId};
      if event.operationKey in operationKeys {
        duplicateMutations := duplicateMutations + 1;
        return;
      }
      operationKeys := operationKeys + {event.operationKey};
      applied := applied + [event.operationKey];
    }

    method DeliverAll(events: seq<Event>)
      modifies this
      ensures State() == Run(old(State()), events)
    {
      for i := 0 to |events|
        invariant State() == Run(old(State()), events[..i])
      {
        assert events[..i + 1][..i] == events[..i];
        Deliver(events[i]);
      }
      assert events[..|events|] == events;
    }
  }

  datatype Report = Report(
    inputEvents: nat,
    appliedMutations: nat,
    duplicateEvents: nat,
    duplicateMutations: nat,
    appliedOperationKeys: seq<string>)

  /** One replay from scratch, reported against the two-pass reading of the same events. */
  method ReplayEvents(events: seq<Event>) returns (report: Report)
    ensures report.appliedOperationKeys == Keys(TwoPass(events), OperationKey)
    ensures Distinct(report.appliedOperationKeys)
    ensures report.inputEvents == |events|
    ensures report.appliedMutations == |report.appliedOperationKeys|
    ensures report.duplicateEvents == |events| - |KeySet(events, EventId)|
    ensures report.inputEvents
         == report.appliedMutations + report.duplicateEvents + report.duplicateMutations
  {
    var replayer := new Replayer();
    replayer.DeliverAll(events);
    RefinesTwoPass(events);
    report := Report(|events|, |replayer.applied|, replayer.duplicateEvents,
                     replayer.duplicateMutations, replayer.applied);
  }

  lemma RunSnoc(p: Progress, events: seq<Event>, e: Event)
    ensures Run(p, events + [e]) == Step(Run(p, events), e)
  {
    assert (events + [e])[..|events|] == events;
  }

  ghost function TwoPassProgress(events: seq<Event>): Progress {
    var firsts := FirstBy(events, EventId);
    var kept := FirstBy(firsts, OperationKey);
    Progress(KeySet(events, EventId), KeySet(firsts, OperationKey),
             |events| - |firsts|, |firsts| - |kept|, Keys(kept, OperationKey))
  }

  /** After any prefix, the loop's state is the two-pass reading of that prefix. */
  lemma {:induction false} StateIsTwoPass(events: seq<Event>)
    ensures Run(NOTHING_REPLAYED, events) == TwoPassProgress(events)
  {
    if events == [] {
    } else {
      var init, last := events[..|events| - 1], events[|events| - 1];
      assert events == init + [last];
      StateIsTwoPass(init);
      TwoPassSnoc(init, last);
      RunSnoc(NOTHING_REPLAYED, init, last);
    }
  }

  lemma TwoPassSnoc(events: seq<Event>, e: Event)
    ensures TwoPassProgress(events + [e]) == Step(TwoPassProgress(events), e)
  {
    hide FirstBy, KeySet;
    var firsts := FirstBy(events, EventId);
    KeySetSnoc(events, e, EventId);
    FirstBySnoc(events, e, EventId);
    FirstByKeepsEachKeyOnce(firsts, OperationKey);
    if e.eventId in KeySet(events, EventId) {
      assert KeySet(events + [e], EventId) == KeySet(events, EventId);
    } else {
      KeySetSnoc(firsts, e, OperationKey);
      FirstBySnoc(firsts, e, OperationKey);
      KeysSnoc(FirstBy(firsts, OperationKey), e, OperationKey);
      if e.operationKey in KeySet(firsts, OperationKey) {
        assert KeySet(firsts + [e], OperationKey) == KeySet(firsts, OperationKey);
      }
    }
  }

  /** The one-pass loop computes the two-pass reading, and its counters have closed forms. */
  lemma RefinesTwoPass(events: seq<Event>)
    ensures Run(NOTHING_REPLAYED, events).applied == Keys(TwoPass(events), OperationKey)
    ensures Distinct(Run(NOTHING_REPLAYED, events).applied)
    ensures Run(NOTHING_REPLAYED, events).processed == KeySet(events, EventId)
    ensures Run(NOTHING_REPLAYED, events).duplicateEvents == |events| - |KeySet(events, EventId)|
    ensures Run(NOTHING_REPLAYED, events).duplicateMutations
         == |KeySet(events, EventId)| - |Run(NOTHING_REPLAYED, events).applied|
  {
    StateIsTwoPass(events);
    FirstByKeepsEachKeyOnce(events, EventId);
    FirstByKeepsEachKeyOnce(FirstBy(events, EventId), OperationKey);
  }

  /** Resuming on later events from saved progress equals one replay of everything. */
  lemma {:induction false} ResumeEqualsReplay(p: Progress, a: seq<Event>, b: seq<Event>)
    ensures Run(Run(p, a), b) == Run(p, a + b)
  {
    if b == [] {
      assert a + b == a;
    } else {
      ResumeEqualsReplay(p, a, b[..|b| - 1]);
      assert (a + b)[..|a + b| - 1] == a + b[..|b| - 1];
    }
  }

  /** A delivery log in which some entries are marked as redeliveries. */
  datatype Delivery = Delivery(event: Event, redelivered: bool)

  function DeliveredId(d: Delivery): string { d.event.eventId }

  function Received(log: seq<Delivery>): seq<Event> {
    if log == [] then [] else Received(log[..|log| - 1]) + [log[|log| - 1].event]
  }

  function Originals(log: seq<Delivery>): seq<Event> {
    if log == [] then []
    else
      var init, last := log[..|log| - 1], log[|log| - 1];
      if last.redelivered then Originals(init) else Originals(init) + [last.event]
  }

  function Redeliveries(log: seq<Delivery>): nat {
    if log == [] then 0
    else Redeliveries(log[..|log| - 1]) + if log[|log| - 1].redelivered then 1 else 0
  }

  /** Every marked entry repeats an event id that was delivered before it. */
  ghost predicate MarksOnlyRepeats(log: seq<Delivery>) {
    forall i :: 0 <= i < |log| && log[i].redelivered ==>
      exists j :: 0 <= j < i && DeliveredId(log[j]) == DeliveredId(log[i])
  }

  lemma {:induction false} ReceivedCarriesTheIds(log: seq<Delivery>)
    ensures KeySet(Received(log), EventId) == KeySet(log, DeliveredId)
  {
    if log == [] {
    } else {
      var init, last := log[..|log| - 1], log[|log| - 1];
      assert log == init + [last];
      ReceivedCarriesTheIds(init);
      KeySetSnoc(init, last, DeliveredId);
      KeySetSnoc(Received(init), last.event, EventId);
    }
  }

  function AddDuplicates(p: Progress, n: nat): Progress {
    p.(duplicateEvents := p.duplicateEvents + n)
  }

  lemma RepeatIsOnlyCounted(events: seq<Event>, e: Event)
    requires e.eventId in KeySet(events, EventId)
    ensures Run(NOTHING_REPLAYED, events + [e]) == AddDuplicates(Run(NOTHING_REPLAYED, events), 1)
  {
    StateIsTwoPass(events);
    RunSnoc(NOTHING_REPLAYED, events, e);
  }

  lemma StepIgnoresTheCount(p: Progress, n: nat, e: Event)
    ensures Step(AddDuplicates(p, n), e) == AddDuplicates(Step(p, e), n)
  {
  }

  lemma PrefixMarksOnlyRepeats(log: seq<Delivery>)
    requires MarksOnlyRepeats(log) && log != []
    ensures MarksOnlyRepeats(log[..|log| - 1])
    ensures log[|log| - 1].redelivered ==>
              DeliveredId(log[|log| - 1]) in KeySet(log[..|log| - 1], DeliveredId)
  {
    var init := log[..|log| - 1];
    assert forall i :: 0 <= i < |init| ==> init[i] == log[i];
    forall i | 0 <= i < |init| && init[i].redelivered
      ensures exists j :: 0 <= j < i && DeliveredId(init[j]) == DeliveredId(init[i])
    {
      var j :| 0 <= j < i && DeliveredId(log[j]) == DeliveredId(log[i]);
      assert DeliveredId(init[j]) == DeliveredId(init[i]);
    }
    if log[|log| - 1].redelivered {
      var j :| 0 <= j < |log| - 1 && DeliveredId(log[j]) == DeliveredId(log[|log| - 1]);
      assert DeliveredId(init[j]) == DeliveredId(log[j]);
    }
  }

  /**
   Redelivery is invisible: any number of later copies of delivered ids, interleaved anywhere,
   changes nothing but the duplicate-event count, which grows by exactly their number.
   */
  lemma {:induction false} RedeliveryIsInvisible(log: seq<Delivery>)
    requires MarksOnlyRepeats(log)
    ensures Run(NOTHING_REPLAYED, Received(log))
         == AddDuplicates(Run(NOTHING_REPLAYED, Originals(log)), Redeliveries(log))
  {
    hide Step;
    if log == [] {
    } else {
      var init, last := log[..|log| - 1], log[|log| - 1];
      PrefixMarksOnlyRepeats(log);
      RedeliveryIsInvisible(init);
      if last.redelivered {
        ReceivedCarriesTheIds(init);
        RepeatIsOnlyCounted(Received(init), last.event);
      } else {
        RunSnoc(NOTHING_REPLAYED, Received(init), last.event);
        RunSnoc(NOTHING_REPLAYED, Originals(init), last.event);
        StepIgnoresTheCount(Run(NOTHING_REPLAYED, Originals(init)), Redeliveries(init), last.event);
      }
    }
  }

  lemma AppliedAreFirstKeys(events: seq<Event>)
    ensures AppliedSet(events) == KeySet(FirstBy(events, EventId), OperationKey)
  {
    RefinesTwoPass(events);
    FirstByKeepsEachKeyOnce(FirstBy(events, EventId), OperationKey);
    var kept := TwoPass(events);
    assert forall i :: 0 <= i < |kept| ==> Keys(kept, OperationKey)[i] == OperationKey(kept[i]);
  }

  /** Some event id carries this operation key and no other. */
  ghost predicate HasFaithfulCarrier(events: seq<Event>, k: string) {
    exists e :: e in events && e.operationKey == k
             && forall f :: f in events && f.eventId == e.eventId ==> f.operationKey == k
  }

  ghost predicate SameEvents(a: seq<Event>, b: seq<Event>) {
    multiset(a) == multiset(b)
  }

  /** A key with a faithful carrier is applied in whatever order the events arrive. */
  lemma FaithfulCarrierIsApplied(events: seq<Event>, k: string)
    requires HasFaithfulCarrier(events, k)
    ensures k in AppliedSet(events)
  {
    var e :| e in events && e.operationKey == k
             && forall f :: f in events && f.eventId == e.eventId ==> f.operationKey == k;
    var at :| 0 <= at < |events| && events[at] == e;
    assert EventId(events[at]) in KeySet(events, EventId);
    var firsts := FirstBy(events, EventId);
    FirstByKeepsEachKeyOnce(events, EventId);
    var i :| 0 <= i < |firsts| && EventId(firsts[i]) == e.eventId;
    assert firsts[i] in events;
    assert OperationKey(firsts[i]) == k;
    AppliedAreFirstKeys(events);
  }

  function Without(events: seq<Event>, k: string): seq<Event> {
    if events == [] then []
    else (if events[0].operationKey == k then [] else [events[0]]) + Without(events[1..], k)
  }

  function Only(events: seq<Event>, k: string): seq<Event> {
    if events == [] then []
    else (if events[0].operationKey == k then [events[0]] else []) + Only(events[1..], k)
  }

  lemma {:induction false} MembersByKey(events: seq<Event>, k: string)
    ensures forall e :: e in Without(events, k) <==> e in events && e.operationKey != k
    ensures forall e :: e in Only(events, k) ==> e.operationKey == k
  {
    if events == [] {
    } else {
      MembersByKey(events[1..], k);
      assert events == [events[0]] + events[1..];
    }
  }

  lemma {:induction false} DelayingAKeyPermutes(events: seq<Event>, k: string)
    ensures SameEvents(Without(events, k) + Only(events, k), events)
  {
    if events == [] {
    } else {
      DelayingAKeyPermutes(events[1..], k);
      assert events == [events[0]] + events[1..];
      var w, o := Without(events[1..], k), Only(events[1..], k);
      assert multiset(w + o) == multiset(w) + multiset(o);
    }
  }

  /** A key whose events are all delivered last is applied only if it has a faithful carrier. */
  lemma DelayedKeyNeedsFaithfulCarrier(events: seq<Event>, k: string)
    requires k in AppliedSet(Without(events, k) + Only(events, k))
    ensures HasFaithfulCarrier(events, k)
  {
    var w, o := Without(events, k), Only(events, k);
    DelayingAKeyPermutes(events, k);
    MembersByKey(events, k);
    SameMembers(w + o, events);
    AppliedAreFirstKeys(w + o);
    var firsts := FirstBy(w + o, EventId);
    var n :| 0 <= n < |firsts| && OperationKey(firsts[n]) == k;
    var e := firsts[n];
    var i := KeptIsEarliest(w + o, EventId, e);
    assert forall j :: 0 <= j < |w| ==> (w + o)[j] == w[j] && w[j] in w;
    assert i >= |w|;
    assert forall j :: 0 <= j < |w| ==> EventId(w[j]) != EventId(e);
    assert forall f :: f in events && f.eventId == e.eventId ==> f !in w;
    assert e in events;
  }

  /**
   Every operation key is applied under every delivery order if and only if each key has an
   event id that carries only that key.
   */
  lemma EveryOrderAppliesEveryKeyIff(events: seq<Event>)
    ensures (forall p :: SameEvents(p, events) ==> AppliedSet(p) == KeySet(events, OperationKey))
       <==> (forall k :: k in KeySet(events, OperationKey) ==> HasFaithfulCarrier(events, k))
  {
    forall k | k in KeySet(events, OperationKey) && !HasFaithfulCarrier(events, k)
      ensures exists p :: SameEvents(p, events) && AppliedSet(p) != KeySet(events, OperationKey)
    {
      DelayingAKeyPermutes(events, k);
      if AppliedSet(Without(events, k) + Only(events, k)) == KeySet(events, OperationKey) {
        DelayedKeyNeedsFaithfulCarrier(events, k);
        assert false;
      }
    }
    if forall k :: k in KeySet(events, OperationKey) ==> HasFaithfulCarrier(events, k) {
      forall p | SameEvents(p, events) ensures AppliedSet(p) == KeySet(events, OperationKey) {
        SameMembers(p, events);
        SameElementsSameKeys(p, events, OperationKey);
        forall k | k in KeySet(events, OperationKey) ensures k in AppliedSet(p) {
          FaithfulCarrierIsApplied(p, k);
        }
        AppliedAreFirstKeys(p);
        FirstByKeepsEachKeyOnce(p, EventId);
        forall k | k in AppliedSet(p) ensures k in KeySet(p, OperationKey) {
          var firsts := FirstBy(p, EventId);
          var i :| 0 <= i < |firsts| && OperationKey(firsts[i]) == k;
          assert firsts[i] in p;
          var j :| 0 <= j < |p| && p[j] == firsts[i];
          assert OperationKey(p[j]) == k;
        }
      }
    }
  }

  lemma SameMembers(a: seq<Event>, b: seq<Event>)
    requires SameEvents(a, b)
    ensures forall e :: e in a <==> e in b
  {
    assert forall e :: e in a <==> e in multiset(a);
    assert forall e :: e in b <==> e in multiset(b);
  }

  ghost predicate IdDeterminesKey(events: seq<Event>) {
    forall e, f :: e in events && f in events && e.eventId == f.eventId ==> e.operationKey == f.operationKey
  }

  lemma {:induction false} DistinctCount(s: seq<string>)
    requires Distinct(s)
    ensures |set k | k in s| == |s|
  {
    if s == [] {
    } else {
      DistinctCount(s[1..]);
      assert (set k | k in s) == {s[0]} + set k | k in s[1..];
    }
  }

  /** When ids determine keys, the applied keys and all counters are the same in every order. */
  lemma OrderDoesNotMatter(events: seq<Event>, p: seq<Event>)
    requires IdDeterminesKey(events) && SameEvents(p, events)
    ensures AppliedSet(p) == KeySet(events, OperationKey)
    ensures var r, s := Run(NOTHING_REPLAYED, p), Run(NOTHING_REPLAYED, events);
            && |r.applied| == |s.applied|
            && r.duplicateEvents == s.duplicateEvents
            && r.duplicateMutations == s.duplicateMutations
  {
    forall k | k in KeySet(events, OperationKey) ensures HasFaithfulCarrier(events, k) {
      var i :| 0 <= i < |events| && OperationKey(events[i]) == k;
      assert events[i] in events;
    }
    EveryOrderAppliesEveryKeyIff(events);
    assert SameEvents(events, events);
    assert AppliedSet(events) == AppliedSet(p);
    forall t | t == p || t == events ensures |Run(NOTHING_REPLAYED, t).applied| == |AppliedSet(t)| {
      RefinesTwoPass(t);
      DistinctCount(Run(NOTHING_REPLAYED, t).applied);
    }
    SameMembers(p, events);
    SameElementsSameKeys(p, events, EventId);
    assert |p| == |multiset(p)| == |multiset(events)| == |events|;
    RefinesTwoPass(p);
    RefinesTwoPass(events);
  }

  /** Without that condition order matters: one id carrying two keys applies whichever came first. */
  lemma ConflictingIdsDependOnOrder()
    ensures var x, y := Event("evt", "a"), Event("evt", "b");
            SameEvents([x, y], [y, x]) && AppliedSet([x, y]) == {"a"} && AppliedSet([y, x]) == {"b"}
  {
    var x, y := Event("evt", "a"), Event("evt", "b");
    assert [x, y] == [] + [x] + [y] && [y, x] == [] + [y] + [x];
    RunSnoc(NOTHING_REPLAYED, [], x);
    RunSnoc(NOTHING_REPLAYED, [], y);
    RunSnoc(NOTHING_REPLAYED, [] + [x], y);
    RunSnoc(NOTHING_REPLAYED, [] + [y], x);
  }
}
