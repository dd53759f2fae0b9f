/** Ordering and enabling the sections of an experience form. */
module Sections {
  import opened Outcomes

  datatype Section = Section(id: string, component: string, enabled: Option<bool>, properties: map<string, string>)

  /** A section counts as enabled unless it says `false`. */
  predicate IsEnabled(s: Section) {
    s.enabled != Some(false)
  }

  // ----- Moving one element -----

  function RemoveAt<T>(s: seq<T>, i: int): seq<T>
    requires 0 <= i < |s|
  {
    s[..i] + s[i + 1..]
  }

  function InsertAt<T>(s: seq<T>, i: int, x: T): seq<T>
    requires 0 <= i <= |s|
  {
    s[..i] + [x] + s[i..]
  }

  /** The list after dragging the element at `from` to `to`; a move out of range changes nothing. */
  function Moved<T>(s: seq<T>, from: int, to: int): seq<T>
    requires 0 <= from < |s|
  {
    if to < 0 || to >= |s| || from == to then s
    else InsertAt(RemoveAt(s, from), to, s[from])
  }

  /** The arrow buttons, pressed one after the other, that carry an element from `from` to `to`. */
  function Walked<T>(s: seq<T>, from: int, to: int): seq<T>
    requires 0 <= from < |s| && 0 <= to < |s|
    decreases if from < to then to - from else from - to
  {
    if from == to then s
    else
      var next := if from < to then from + 1 else from - 1;
      Walked(Moved(s, from, next), next, to)
  }

  /** A move puts the element at its target and keeps all the others in their relative order. */
  lemma MoveKeepsTheOthersInOrder<T>(s: seq<T>, from: int, to: int)
    requires 0 <= from < |s| && 0 <= to < |s|
    ensures |Moved(s, from, to)| == |s|
    ensures Moved(s, from, to)[to] == s[from]
    ensures RemoveAt(Moved(s, from, to), to) == RemoveAt(s, from)
  {
    assert RemoveAt(Moved(s, from, to), to) == RemoveAt(s, from);
  }

  /** A list is determined by one element, its position, and the rest. */
  lemma InsertAfterRemove<T>(s: seq<T>, i: int)
    requires 0 <= i < |s|
    ensures InsertAt(RemoveAt(s, i), i, s[i]) == s
  {
  }

  /** Moving back undoes a move. */
  lemma MoveBackUndoes<T>(s: seq<T>, from: int, to: int)
    requires 0 <= from < |s| && 0 <= to < |s|
    ensures |Moved(s, from, to)| == |s|
    ensures Moved(Moved(s, from, to), to, from) == s
  {
    MoveKeepsTheOthersInOrder(s, from, to);
    InsertAfterRemove(s, from);
  }

  lemma MovesCompose<T>(s: seq<T>, from: int, via: int, to: int)
    requires 0 <= from < |s| && 0 <= via < |s| && 0 <= to < |s|
    ensures |Moved(s, from, via)| == |s|
    ensures Moved(Moved(s, from, via), via, to) == Moved(s, from, to)
  {
    MoveKeepsTheOthersInOrder(s, from, via);
    InsertAfterRemove(s, from);
    InsertAfterRemove(Moved(s, from, via), via);
  }

  /** A drag is the same as its adjacent arrow moves in sequence. */
  lemma {:induction false} DragEqualsArrows<T>(s: seq<T>, from: int, to: int)
    requires 0 <= from < |s| && 0 <= to < |s|
    ensures Walked(s, from, to) == Moved(s, from, to)
    decreases if from < to then to - from else from - to
  {
    if from != to {
      var next := if from < to then from + 1 else from - 1;
      MoveKeepsTheOthersInOrder(s, from, next);
      DragEqualsArrows(Moved(s, from, next), next, to);
      MovesCompose(s, from, next, to);
    }
  }

  lemma InsertAddsOne<T>(s: seq<T>, i: int, x: T)
    requires 0 <= i <= |s|
    ensures multiset(InsertAt(s, i, x)) == multiset(s) + multiset{x}
  {
    assert s == s[..i] + s[i..];
  }

  lemma MoveIsAPermutation<T>(s: seq<T>, from: int, to: int)
    requires 0 <= from < |s|
    ensures multiset(Moved(s, from, to)) == multiset(s)
  {
    if 0 <= to < |s| && from != to {
      InsertAddsOne(RemoveAt(s, from), to, s[from]);
      InsertAddsOne(RemoveAt(s, from), from, s[from]);
      InsertAfterRemove(s, from);
    }
  }

  // ----- Arrow moves reach every permutation -----

  /** Swapping neighbours `i` and `i + 1`: one press of an arrow button. */
  function Pressed<T>(s: seq<T>, i: nat): seq<T> {
    if i + 1 < |s| then Moved(s, i, i + 1) else s
  }

  function PressedAll<T>(s: seq<T>, presses: seq<nat>): seq<T>
    decreases presses
  {
    if presses == [] then s else PressedAll(Pressed(s, presses[0]), presses[1..])
  }

  lemma {:induction false} PressesCompose<T>(s: seq<T>, a: seq<nat>, b: seq<nat>)
    ensures PressedAll(s, a + b) == PressedAll(PressedAll(s, a), b)
    decreases a
  {
    if a == [] {
      assert a + b == b;
    } else {
      assert (a + b)[1..] == a[1..] + b;
      PressesCompose(Pressed(s, a[0]), a[1..], b);
    }
  }

  lemma {:induction false} PressesPermute<T>(s: seq<T>, presses: seq<nat>)
    ensures multiset(PressedAll(s, presses)) == multiset(s)
    decreases presses
  {
    if presses == [] {
    } else {
      PressesPermute(Pressed(s, presses[0]), presses[1..]);
      if presses[0] + 1 < |s| {
        MoveIsAPermutation(s, presses[0], presses[0] + 1);
      }
    }
  }

  function Shifted(presses: seq<nat>): seq<nat> {
    seq(|presses|, i requires 0 <= i < |presses| => presses[i] + 1)
  }

  /** Presses that leave the head alone act on the tail. */
  lemma {:induction false} PressesUnderHead<T>(x: T, s: seq<T>, presses: seq<nat>)
    ensures PressedAll([x] + s, Shifted(presses)) == [x] + PressedAll(s, presses)
    decreases presses
  {
    if presses == [] {
    } else {
      var i := presses[0];
      assert Shifted(presses)[1..] == Shifted(presses[1..]);
      assert Pressed([x] + s, i + 1) == [x] + Pressed(s, i);
      PressesUnderHead(x, Pressed(s, i), presses[1..]);
    }
  }

  /** Pressing "up" repeatedly brings the element at `k` to the front. */
  lemma {:induction false} BringToFront<T>(s: seq<T>, k: nat) returns (presses: seq<nat>)
    requires k < |s|
    ensures PressedAll(s, presses) == Moved(s, k, 0)
    decreases k
  {
    if k == 0 {
      presses := [];
    } else {
      var t := Pressed(s, k - 1);
      assert t == Moved(s, k, k - 1);
      MoveKeepsTheOthersInOrder(s, k, k - 1);
      var rest := BringToFront(t, k - 1);
      MovesCompose(s, k, k - 1, 0);
      presses := [k - 1] + rest;
      assert presses[1..] == rest;
    }
  }

  lemma {:induction false} ArrowsReach<T>(s: seq<T>, t: seq<T>) returns (presses: seq<nat>)
    requires multiset(s) == multiset(t)
    ensures PressedAll(s, presses) == t
    decreases t
  {
    if t == [] {
      assert |multiset(s)| == |s|;
      presses := [];
    } else {
      var k := FrontOf(s, t);
      var first := BringToFront(s, k);
      var front := Moved(s, k, 0);
      var rest := ArrowsReach(front[1..], t[1..]);
      PressesUnderHead(t[0], front[1..], rest);
      PressesCompose(s, first, Shifted(rest));
      presses := first + Shifted(rest);
      assert t == [t[0]] + t[1..];
    }
  }

  lemma FrontOf<T>(s: seq<T>, t: seq<T>) returns (k: nat)
    requires multiset(s) == multiset(t) && t != []
    ensures k < |s| && |Moved(s, k, 0)| == |s|
    ensures Moved(s, k, 0) == [t[0]] + Moved(s, k, 0)[1..]
    ensures multiset(Moved(s, k, 0)[1..]) == multiset(t[1..])
  {
    assert t[0] in multiset(t) && t[0] in multiset(s);
    k :| 0 <= k < |s| && s[k] == t[0];
    var front := Moved(s, k, 0);
    MoveKeepsTheOthersInOrder(s, k, 0);
    MoveIsAPermutation(s, k, 0);
    HeadAndTail(front);
    HeadAndTail(t);
  }

  lemma HeadAndTail<T>(s: seq<T>)
    requires s != []
    ensures s == [s[0]] + s[1..]
    ensures multiset(s[1..]) == multiset(s) - multiset{s[0]}
  {
    assert s == [s[0]] + s[1..];
  }

  /** The arrow buttons alone reach an order exactly when it is a permutation of the list. */
  lemma ArrowsReachExactlyThePermutations<T>(s: seq<T>, t: seq<T>)
    ensures (exists presses :: PressedAll(s, presses) == t) <==> multiset(s) == multiset(t)
  {
    if multiset(s) == multiset(t) {
      var presses := ArrowsReach(s, t);
    }
    forall presses ensures multiset(PressedAll(s, presses)) == multiset(s) {
      PressesPermute(s, presses);
    }
  }

  // ----- The editor -----

  function EnabledCount(sections: seq<Section>): nat {
    if sections == [] then 0
    else EnabledCount(sections[1..]) + if IsEnabled(sections[0]) then 1 else 0
  }

  datatype Edit =
    | Move(from: nat, to: int)
    | Remove(index: nat)
    | SetEnabled(index: nat, enabled: bool)
    | Add(section: Section)

  /** The section list after one edit; an index outside the list edits nothing. */
  function Edited(sections: seq<Section>, edit: Edit): seq<Section> {
    match edit
    case Move(from, to) => if from < |sections| then Moved(sections, from, to) else sections
    case Remove(i) => if |sections| <= 1 || i >= |sections| then sections else RemoveAt(sections, i)
    case SetEnabled(i, enabled) =>
      if (!enabled && EnabledCount(sections) <= 1) || i >= |sections| then sections
      else sections[i := sections[i].(enabled := Some(enabled))]
    case Add(section) => sections + [section]
  }

  function EditedAll(sections: seq<Section>, edits: seq<Edit>): seq<Section>
    decreases edits
  {
    if edits == [] then sections else EditedAll(Edited(sections, edits[0]), edits[1..])
  }

  class Editor {
    var sections: seq<Section>

    constructor (sections: seq<Section>)
      ensures this.sections == sections
    {
      this.sections := sections;
    }

    /** Cuts the element out of a copy of the list and splices it back in at the target. */
    method MoveSection(from: nat, to: int)
      requires from < |sections|
      modifies this
      ensures sections == Edited(old(sections), Move(from, to))
      ensures multiset(sections) == multiset(old(sections))
    {
      MoveIsAPermutation(sections, from, to);
      if to < 0 || to >= |sections| || from == to { return; }
      var copy := sections;
      var moved := copy[from];
      copy := copy[..from] + copy[from + 1..];
      copy := copy[..to] + [moved] + copy[to..];
      sections := copy;
    }

    /** Keeps every section whose position is not `index`. */
    method RemoveSection(index: nat)
      modifies this
      ensures sections == Edited(old(sections), Remove(index))
    {
      if |sections| <= 1 { return; }
      var kept: seq<Section> := [];
      for i := 0 to |sections|
        invariant sections == old(sections)
        invariant kept == if index < i then sections[..index] + sections[index + 1..i] else sections[..i]
      {
        if i != index { kept := kept + [sections[i]]; }
      }
      sections := kept;
    }

    method SetSectionEnabled(index: nat, enabled: bool)
      modifies this
      ensures sections == Edited(old(sections), SetEnabled(index, enabled))
    {
      var enabledCount := EnabledCount(sections);
      if !enabled && enabledCount <= 1 { return; }
      if index < |sections| {
        sections := sections[index := sections[index].(enabled := Some(enabled))];
      }
    }

    method AddSection(section: Section)
      modifies this
      ensures sections == Edited(old(sections), Add(section))
    {
      sections := sections + [section];
    }
  }

  // ----- What an edit does to the list -----

  ghost function EnabledPositions(sections: seq<Section>): set<int> {
    set i | 0 <= i < |sections| && sections[i].enabled != Some(false)
  }

  lemma {:induction false} CountIsOfPositions(sections: seq<Section>)
    ensures EnabledCount(sections) == |EnabledPositions(sections)|
  {
    if sections == [] {
    } else {
      var n := |sections| - 1;
      assert sections == sections[..n] + [sections[n]];
      CountOfConcat(sections[..n], [sections[n]]);
      CountIsOfPositions(sections[..n]);
      var before := EnabledPositions(sections[..n]);
      assert EnabledPositions(sections) == if sections[n].enabled != Some(false) then before + {n} else before;
    }
  }

  /**
   Switching a section changes its flag and nothing else: to the asked value, unless that would switch
   one off while at most one is on.
   */
  lemma SwitchSetsTheFlag(sections: seq<Section>, i: nat, enabled: bool)
    requires i < |sections|
    ensures var after := Edited(sections, SetEnabled(i, enabled));
            && |after| == |sections|
            && (forall j :: 0 <= j < |sections| && j != i ==> after[j] == sections[j])
            && after[i].id == sections[i].id && after[i].component == sections[i].component
            && after[i].properties == sections[i].properties
            && after[i].enabled == if enabled || |EnabledPositions(sections)| >= 2 then Some(enabled)
                                   else sections[i].enabled
  {
    CountIsOfPositions(sections);
  }

  /** Removing takes out the section at the position, unless it is the only one; adding appends. */
  lemma RemoveAndAdd(sections: seq<Section>, i: nat, section: Section)
    requires i < |sections|
    ensures |sections| >= 2 ==> Edited(sections, Remove(i)) == sections[..i] + sections[i + 1..]
    ensures |sections| == 1 ==> Edited(sections, Remove(i)) == sections
    ensures Edited(Edited(sections, Add(section)), Remove(|sections|)) == sections
  {
    assert (sections + [section])[..|sections|] == sections;
  }

  // ----- At least one enabled section -----

  ghost predicate SomeEnabled(sections: seq<Section>) {
    exists i :: 0 <= i < |sections| && sections[i].enabled != Some(false)
  }

  /** The edit removes the only enabled section, which the length guard does not stop. */
  ghost predicate RemovesLastEnabled(sections: seq<Section>, edit: Edit) {
    && edit.Remove? && edit.index < |sections| && |sections| > 1
    && forall i :: 0 <= i < |sections| && i != edit.index ==> sections[i].enabled == Some(false)
  }

  lemma {:induction false} CountIsPositiveIff(sections: seq<Section>)
    ensures EnabledCount(sections) > 0 <==> SomeEnabled(sections)
  {
    if sections == [] {
    } else {
      CountIsPositiveIff(sections[1..]);
      if SomeEnabled(sections[1..]) {
        var i :| 0 <= i < |sections[1..]| && IsEnabled(sections[1..][i]);
        assert IsEnabled(sections[i + 1]);
      }
    }
  }

  lemma {:induction false} CountOfConcat(a: seq<Section>, b: seq<Section>)
    ensures EnabledCount(a + b) == EnabledCount(a) + EnabledCount(b)
  {
    if a == [] {
      assert a + b == b;
    } else {
      assert (a + b)[1..] == a[1..] + b;
      CountOfConcat(a[1..], b);
    }
  }

  lemma CountWithoutOne(sections: seq<Section>, i: nat)
    requires i < |sections|
    ensures EnabledCount(sections) == EnabledCount(RemoveAt(sections, i)) + if IsEnabled(sections[i]) then 1 else 0
  {
    hide IsEnabled;
    var tail := [sections[i]] + sections[i + 1..];
    assert sections == sections[..i] + tail && tail[1..] == sections[i + 1..];
    CountOfConcat(sections[..i], [sections[i]] + sections[i + 1..]);
    CountOfConcat(sections[..i], sections[i + 1..]);
  }

  lemma SomeEnabledDependsOnContents(a: seq<Section>, b: seq<Section>)
    requires multiset(a) == multiset(b)
    ensures SomeEnabled(a) ==> SomeEnabled(b)
  {
    if SomeEnabled(a) {
      var i :| 0 <= i < |a| && IsEnabled(a[i]);
      assert a[i] in multiset(a) && a[i] in multiset(b);
      var j :| 0 <= j < |b| && b[j] == a[i];
      assert IsEnabled(b[j]);
    }
  }

  lemma RemovalKeepsSomeEnabledIff(sections: seq<Section>, k: nat)
    requires k < |sections|
    ensures SomeEnabled(RemoveAt(sections, k))
       <==> exists i :: 0 <= i < |sections| && i != k && IsEnabled(sections[i])
  {
    var after := RemoveAt(sections, k);
    assert forall j :: 0 <= j < k ==> after[j] == sections[j];
    assert forall j :: k <= j < |after| ==> after[j] == sections[j + 1];
    if SomeEnabled(after) {
      var j :| 0 <= j < |after| && IsEnabled(after[j]);
      assert IsEnabled(sections[if j < k then j else j + 1]);
    }
    forall i | 0 <= i < |sections| && i != k && IsEnabled(sections[i]) ensures SomeEnabled(after) {
      assert IsEnabled(after[if i < k then i else i - 1]);
    }
  }

  lemma DisablingKeepsSomeEnabled(sections: seq<Section>, k: nat)
    requires k < |sections| && EnabledCount(sections) > 1
    ensures SomeEnabled(sections[k := sections[k].(enabled := Some(false))])
  {
    CountWithoutOne(sections, k);
    CountIsPositiveIff(RemoveAt(sections, k));
    RemovalKeepsSomeEnabledIff(sections, k);
    var i :| 0 <= i < |sections| && i != k && IsEnabled(sections[i]);
    assert IsEnabled(sections[k := sections[k].(enabled := Some(false))][i]);
  }

  /** An edit loses the last enabled section if and only if it is such a removal. */
  lemma EditKeepsSomeEnabledIff(sections: seq<Section>, edit: Edit)
    requires SomeEnabled(sections)
    ensures SomeEnabled(Edited(sections, edit)) <==> !RemovesLastEnabled(sections, edit)
  {
    match edit {
      case Move(from, to) =>
        if from < |sections| {
          MoveIsAPermutation(sections, from, to);
          SomeEnabledDependsOnContents(sections, Moved(sections, from, to));
        }
      case Remove(k) =>
        if k < |sections| {
          RemovalKeepsSomeEnabledIff(sections, k);
        }
      case SetEnabled(k, enabled) =>
        if k < |sections| {
          if enabled {
            assert IsEnabled(Edited(sections, edit)[k]);
          } else if EnabledCount(sections) > 1 {
            DisablingKeepsSomeEnabled(sections, k);
          }
        }
      case Add(section) =>
        var i :| 0 <= i < |sections| && IsEnabled(sections[i]);
        assert IsEnabled(Edited(sections, edit)[i]);
    }
  }

  /** No edit of a run removes the last enabled section. */
  ghost predicate NeverRemovesLastEnabled(sections: seq<Section>, edits: seq<Edit>)
    decreases edits
  {
    edits != [] ==>
      && !RemovesLastEnabled(sections, edits[0])
      && NeverRemovesLastEnabled(Edited(sections, edits[0]), edits[1..])
  }

  /** Every list along a run of edits has an enabled section. */
  ghost predicate SomeEnabledThroughout(sections: seq<Section>, edits: seq<Edit>)
    decreases edits
  {
    SomeEnabled(sections) && (edits != [] ==> SomeEnabledThroughout(Edited(sections, edits[0]), edits[1..]))
  }

  /** A run keeps an enabled section throughout if and only if no edit of it removes the last one. */
  lemma {:induction false} RunsKeepSomeEnabledIff(sections: seq<Section>, edits: seq<Edit>)
    requires SomeEnabled(sections)
    ensures SomeEnabledThroughout(sections, edits) <==> NeverRemovesLastEnabled(sections, edits)
    decreases edits
  {
    if edits == [] {
    } else {
      EditKeepsSomeEnabledIff(sections, edits[0]);
      if SomeEnabled(Edited(sections, edits[0])) {
        RunsKeepSomeEnabledIff(Edited(sections, edits[0]), edits[1..]);
      }
    }
  }

  /** Whatever is edited, the list is never emptied. */
  lemma {:induction false} RunsNeverEmptyTheList(sections: seq<Section>, edits: seq<Edit>)
    requires sections != []
    ensures EditedAll(sections, edits) != []
    decreases edits
  {
    if edits == [] {
    } else {
      assert Edited(sections, edits[0]) != [] by {
        if edits[0].Move? && edits[0].from < |sections| {
          MoveIsAPermutation(sections, edits[0].from, edits[0].to);
          assert sections[0] in multiset(Moved(sections, edits[0].from, edits[0].to));
        }
      }
      RunsNeverEmptyTheList(Edited(sections, edits[0]), edits[1..]);
    }
  }

  /** The removal guard looks at the length only, so the enabled section of a pair can go. */
  lemma RemovalCanLoseTheLastEnabled() returns (sections: seq<Section>)
    ensures SomeEnabled(sections) && !SomeEnabled(Edited(sections, Remove(0)))
  {
    sections := [Section("a", "notice", Some(true), map[]), Section("b", "notice", Some(false), map[])];
    assert IsEnabled(sections[0]);
  }
}
