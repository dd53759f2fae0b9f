/** The master task file: recognising its lines and counting the checkboxes of each task section. */
module MasterTasks {
  import opened Outcomes
  import opened Sums
  import opened Text

  // ----- Recognising lines -----

  predicate IsUpperLetter(c: char) { 'A' <= c <= 'Z' }

  predicate IsDigit(c: char) { '0' <= c <= '9' }

  predicate IsIdChar(c: char) { IsUpperLetter(c) || IsDigit(c) }

  predicate IsWordChar(c: char) { IsIdChar(c) || 'a' <= c <= 'z' || c == '_' }

  /** The number of leading characters an id prefix can take. */
  function RunLength(s: string): (n: nat)
    ensures n <= |s|
    ensures forall i :: 0 <= i < n ==> IsIdChar(s[i])
    ensures n < |s| ==> !IsIdChar(s[n])
  {
    if s == [] || !IsIdChar(s[0]) then 0
    else
      var n := RunLength(s[1..]);
      assert forall i :: 1 <= i < n + 1 ==> s[i] == s[1..][i - 1];
      n + 1
  }

  /** A prefix such as `FOOD2`, a dash, four digits, a dash and three digits. */
  predicate IsTaskId(id: string) {
    var n := |id| - 9;
    && n >= 1
    && IsUpperLetter(id[0]) && (forall i :: 0 <= i < n ==> IsIdChar(id[i]))
    && id[n] == '-' && (forall i :: n < i < n + 5 ==> IsDigit(id[i]))
    && id[n + 5] == '-' && (forall i :: n + 5 < i < n + 9 ==> IsDigit(id[i]))
  }

  /** The task id of a level-two heading that starts with one. */
  function TaskHeading(line: string): Option<string> {
    if !("##" <= line) then None
    else
      var rest := DropLeading(line[2..], IsSpace);
      var end := RunLength(rest) + 9;
      if |rest| < |line| - 2 && |rest| >= end && IsTaskId(rest[..end])
         && (|rest| == end || !IsWordChar(rest[end]))
      then Some(rest[..end]) else None
  }

  /** The mark between the brackets of a checkbox line. */
  function Checkbox(line: string): Option<char> {
    var item := DropLeading(line, IsSpace);
    if item == [] || item[0] != '-' then None
    else
      var box := DropLeading(item[1..], IsSpace);
      if |box| < |item| - 1 && |box| >= 4 && box[0] == '[' && box[1] in " xX" && box[2] == ']' && IsSpace(box[3])
      then Some(box[1]) else None
  }

  datatype Kind = Heading(id: string) | Break | Box(checked: bool) | Plain

  /** What the scan makes of a line: a task heading first, then any H1/H2 break, then a checkbox. */
  function Classify(line: string): Kind {
    if TaskHeading(line).Some? then Heading(TaskHeading(line).value)
    else if "# " <= line || "## " <= line then Break
    else if Checkbox(line).Some? then Box(Checkbox(line).value in "xX")
    else Plain
  }

  ghost predicate IsHeadingText(line: string, id: string, space: string, tail: string) {
    && line == "##" + space + id + tail
    && space != "" && AllDropped(space, IsSpace)
    && (tail == "" || !IsWordChar(tail[0]))
  }

  /** A line is a task heading exactly when it is `##`, white space, a task id, and a word end. */
  lemma TaskHeadingIff(line: string, id: string)
    ensures TaskHeading(line) == Some(id)
       <==> IsTaskId(id) && exists space, tail :: IsHeadingText(line, id, space, tail)
  {
    if TaskHeading(line) == Some(id) {
      var space, tail := MatchedHeadingText(line, id);
    }
    forall space, tail | IsTaskId(id) && IsHeadingText(line, id, space, tail) ensures TaskHeading(line) == Some(id) {
      HeadingTextMatches(line, id, space, tail);
    }
  }

  lemma MatchedHeadingText(line: string, id: string) returns (space: string, tail: string)
    requires TaskHeading(line) == Some(id)
    ensures IsTaskId(id) && IsHeadingText(line, id, space, tail)
  {
    hide IsSpace, IsTaskId;
    var rest := DropLeading(line[2..], IsSpace);
    space := LeadingSplit(line[2..], IsSpace);
    tail := rest[|id|..];
    assert rest == id + tail;
    assert line == "##" + line[2..];
    assert line == "##" + space + id + tail;
  }

  lemma HeadingTextMatches(line: string, id: string, space: string, tail: string)
    requires IsTaskId(id) && IsHeadingText(line, id, space, tail)
    ensures TaskHeading(line) == Some(id)
  {
    var rest, n := id + tail, |id| - 9;
    assert line[2..] == space + rest;
    DropSpace(space, rest);
    assert forall i :: 0 <= i < n ==> rest[i] == id[i];
    assert rest[n] == '-' && RunLength(rest) == n;
    assert rest[..n + 9] == id;
  }

  ghost predicate IsCheckboxText(line: string, mark: char, lead: string, gap: string, tail: string) {
    && line == lead + "-" + gap + "[" + [mark] + "]" + tail
    && AllDropped(lead, IsSpace) && gap != "" && AllDropped(gap, IsSpace)
    && mark in " xX" && tail != "" && IsSpace(tail[0])
  }

  /** A line is a checkbox exactly when it is a dash, white space, a mark in brackets, and white space. */
  lemma CheckboxIff(line: string, mark: char)
    ensures Checkbox(line) == Some(mark) <==> exists lead, gap, tail :: IsCheckboxText(line, mark, lead, gap, tail)
  {
    if Checkbox(line) == Some(mark) {
      var lead, gap, tail := MatchedCheckboxText(line, mark);
    }
    forall lead, gap, tail | IsCheckboxText(line, mark, lead, gap, tail) ensures Checkbox(line) == Some(mark) {
      CheckboxTextMatches(line, mark, lead, gap, tail);
    }
  }

  lemma MatchedCheckboxText(line: string, mark: char) returns (lead: string, gap: string, tail: string)
    requires Checkbox(line) == Some(mark)
    ensures IsCheckboxText(line, mark, lead, gap, tail)
  {
    hide IsSpace;
    var item := DropLeading(line, IsSpace);
    var box := DropLeading(item[1..], IsSpace);
    lead := LeadingSplit(line, IsSpace);
    gap := LeadingSplit(item[1..], IsSpace);
    tail := box[3..];
    AssembledCheckbox(line, lead, item, gap, box, mark);
  }

  lemma AssembledCheckbox(line: string, lead: string, item: string, gap: string, box: string, mark: char)
    requires line == lead + item && item != "" && item[0] == '-' && item[1..] == gap + box
    requires |box| >= 3 && box[0] == '[' && box[1] == mark && box[2] == ']'
    ensures line == lead + "-" + gap + "[" + [mark] + "]" + box[3..]
  {
    assert item == "-" + item[1..];
    assert box == "[" + [mark] + "]" + box[3..];
  }

  lemma CheckboxTextMatches(line: string, mark: char, lead: string, gap: string, tail: string)
    requires IsCheckboxText(line, mark, lead, gap, tail)
    ensures Checkbox(line) == Some(mark)
  {
    var box := "[" + [mark] + "]" + tail;
    var item := "-" + (gap + box);
    assert line == lead + item;
    DropSpace(lead, item);
    assert item[1..] == gap + box;
    DropSpace(gap, box);
  }

  lemma {:induction false} DropSpace(space: string, rest: string)
    requires AllDropped(space, IsSpace) && rest != "" && !IsSpace(rest[0])
    ensures DropLeading(space + rest, IsSpace) == rest
  {
    if space == [] {
      assert space + rest == rest;
    } else {
      assert (space + rest)[1..] == space[1..] + rest;
      DropSpace(space[1..], rest);
    }
  }

  // ----- The scan -----

  datatype Tally = Tally(total: nat, checked: nat)

  datatype Scan = Scan(tasks: map<string, Tally>, current: Option<string>)

  const NOTHING_SCANNED := Scan(map[], None)

  function WithBox(t: Tally, checked: bool): Tally {
    Tally(t.total + 1, t.checked + if checked then 1 else 0)
  }

  /** One line of the scan; a repeated heading is the error. */
  function Step(s: Scan, line: string): Result<Scan, string> {
    match Classify(line)
    case Heading(id) =>
      if id in s.tasks then Err(id) else Ok(Scan(s.tasks[id := Tally(0, 0)], Some(id)))
    case Break => Ok(s.(current := None))
    case Plain => Ok(s)
    case Box(checked) =>
      if s.current.None? || s.current.value !in s.tasks then Ok(s)
      else
        Ok(s.(tasks := s.tasks[s.current.value := WithBox(s.tasks[s.current.value], checked)]))
  }

  function ScanAll(lines: seq<string>): Result<Scan, string> {
    if lines == [] then Ok(NOTHING_SCANNED)
    else
      match ScanAll(lines[..|lines| - 1])
      case Err(id) => Err(id)
      case Ok(s) => Step(s, lines[|lines| - 1])
  }

  function Parse(lines: seq<string>): Result<map<string, Tally>, string> {
    match ScanAll(lines)
    case Err(id) => Err(id)
    case Ok(s) => Ok(s.tasks)
  }

  class TaskProgress {
    const taskId: string
    var totalBoxes: nat
    var checkedBoxes: nat

    constructor (taskId: string)
      ensures this.taskId == taskId && totalBoxes == 0 && checkedBoxes == 0
    {
      this.taskId := taskId;
      totalBoxes, checkedBoxes := 0, 0;
    }

    function Counts(): Tally
      reads this
    {
      Tally(totalBoxes, checkedBoxes)
    }

    method AddBox(checked: bool)
      modifies this
      ensures Counts() == WithBox(old(Counts()), checked)
    {
      totalBoxes := totalBoxes + 1;
      if checked { checkedBoxes := checkedBoxes + 1; }
    }
  }

  /** Every object is filed under its own id, so distinct ids have distinct objects. */
  ghost predicate Filed(tasks: map<string, TaskProgress>) {
    forall id :: id in tasks ==> tasks[id].taskId == id
  }

  ghost function CountsOf(tasks: map<string, TaskProgress>): map<string, Tally>
    reads tasks.Values
  {
    map id | id in tasks :: tasks[id].Counts()
  }

  ghost function IdOf(task: TaskProgress?): Option<string> {
    if task == null then None else Some(task.taskId)
  }

  /** The scan over shared, mutable task objects agrees with the scan over values. */
  method ParseMaster(lines: seq<string>) returns (r: Result<map<string, TaskProgress>, string>)
    ensures r.Err? ==> Parse(lines) == Err(r.error)
    ensures r.Ok? ==> Filed(r.value) && Parse(lines) == Ok(CountsOf(r.value))
  {
    var tasks: map<string, TaskProgress> := map[];
    var current: TaskProgress? := null;
    for i := 0 to |lines|
      invariant Filed(tasks)
      invariant forall id :: id in tasks ==> fresh(tasks[id])
      invariant current != null ==> current.taskId in tasks && tasks[current.taskId] == current
      invariant ScanAll(lines[..i]) == Ok(Scan(CountsOf(tasks), IdOf(current)))
    {
      ghost var before := CountsOf(tasks);
      ScanSnoc(lines, i);
      match Classify(lines[i]) {
        case Heading(id) =>
          if id in tasks {
            ErrorStays(lines, i + 1);
            return Err(id);
          }
          current := new TaskProgress(id);
          CountsAfterFiling(tasks, id, current);
          tasks := tasks[id := current];
        case Break =>
          current := null;
        case Plain =>
        case Box(checked) =>
          if current != null {
            current.AddBox(checked);
            CountsAfterBox(tasks, before, current);
          }
      }
    }
    assert lines[..|lines|] == lines;
    return Ok(tasks);
  }

  lemma CountsAfterFiling(tasks: map<string, TaskProgress>, id: string, task: TaskProgress)
    ensures CountsOf(tasks[id := task]) == CountsOf(tasks)[id := task.Counts()]
  {
  }

  lemma CountsAfterBox(tasks: map<string, TaskProgress>, before: map<string, Tally>, task: TaskProgress)
    requires task.taskId in tasks && tasks[task.taskId] == task && before.Keys == tasks.Keys
    requires forall id :: id in tasks && id != task.taskId ==> tasks[id].Counts() == before[id]
    ensures CountsOf(tasks) == before[task.taskId := task.Counts()]
  {
  }

  lemma ScanSnoc(lines: seq<string>, i: nat)
    requires i < |lines| && ScanAll(lines[..i]).Ok?
    ensures ScanAll(lines[..i + 1]) == Step(ScanAll(lines[..i]).value, lines[i])
  {
    assert lines[..i + 1][..i] == lines[..i];
  }

  lemma {:induction false} ErrorStays(lines: seq<string>, n: nat)
    requires n <= |lines| && ScanAll(lines[..n]).Err?
    ensures ScanAll(lines) == ScanAll(lines[..n])
  {
    if n == |lines| {
      assert lines[..n] == lines;
    } else {
      assert lines[..|lines| - 1][..n] == lines[..n];
      ErrorStays(lines[..|lines| - 1], n);
    }
  }

  // ----- The sectional reading -----

  /** The task that a line appended to `lines` belongs to: the nearest heading, unless a break is nearer. */
  function Owner(lines: seq<string>): Option<string> {
    if lines == [] then None
    else
      match Classify(lines[|lines| - 1])
      case Heading(id) => Some(id)
      case Break => None
      case _ => Owner(lines[..|lines| - 1])
  }

  /** The boxes, and the checked boxes, whose owner is the given task. */
  function BoxesOf(lines: seq<string>, id: string): Tally {
    if lines == [] then Tally(0, 0)
    else
      var init, kind := lines[..|lines| - 1], Classify(lines[|lines| - 1]);
      var t := BoxesOf(init, id);
      if kind.Box? && Owner(init) == Some(id) then WithBox(t, kind.checked) else t
  }

  /** The boxes that have an owner. */
  function OwnedBoxes(lines: seq<string>): nat {
    if lines == [] then 0
    else
      var init := lines[..|lines| - 1];
      OwnedBoxes(init) + if Classify(lines[|lines| - 1]).Box? && Owner(init).Some? then 1 else 0
  }

  ghost function HeadingIds(lines: seq<string>): set<string> {
    set i | 0 <= i < |lines| && Classify(lines[i]).Heading? :: Classify(lines[i]).id
  }

  ghost predicate HeadingsAreDistinct(lines: seq<string>) {
    forall i, j :: 0 <= i < j < |lines| && Classify(lines[i]).Heading? && Classify(lines[j]).Heading? ==>
      Classify(lines[i]).id != Classify(lines[j]).id
  }

  lemma HeadingIdsSnoc(init: seq<string>, line: string)
    ensures HeadingIds(init + [line])
         == HeadingIds(init) + if Classify(line).Heading? then {Classify(line).id} else {}
  {
    var lines := init + [line];
    assert forall i :: 0 <= i < |init| ==> lines[i] == init[i];
    assert lines[|init|] == line;
    forall id | id in HeadingIds(init) ensures id in HeadingIds(lines) {
      var i :| 0 <= i < |init| && Classify(init[i]).Heading? && Classify(init[i]).id == id;
      assert Classify(lines[i]).id == id;
    }
  }

  lemma DistinctSnoc(init: seq<string>, line: string)
    ensures HeadingsAreDistinct(init + [line])
       <==> HeadingsAreDistinct(init) && (Classify(line).Heading? ==> Classify(line).id !in HeadingIds(init))
  {
    var lines := init + [line];
    assert lines[|init|] == line;
    assert forall i :: 0 <= i < |init| ==> lines[i] == init[i];
    if HeadingsAreDistinct(lines) && Classify(line).Heading? {
      forall i | 0 <= i < |init| && Classify(init[i]).Heading? ensures Classify(init[i]).id != Classify(line).id {
        assert Classify(lines[i]).id != Classify(lines[|init|]).id;
      }
    }
  }

  ghost predicate IsReading(lines: seq<string>, s: Scan) {
    && s.tasks.Keys == HeadingIds(lines)
    && s.current == Owner(lines)
    && (s.current.Some? ==> s.current.value in s.tasks)
    && forall id :: id in s.tasks ==> s.tasks[id] == BoxesOf(lines, id)
  }

  lemma {:induction false} NoBoxesWithoutHeading(lines: seq<string>, id: string)
    requires id !in HeadingIds(lines)
    ensures BoxesOf(lines, id) == Tally(0, 0) && Owner(lines) != Some(id)
  {
    if lines == [] {
    } else {
      var init, line := lines[..|lines| - 1], lines[|lines| - 1];
      assert lines == init + [line];
      HeadingIdsSnoc(init, line);
      NoBoxesWithoutHeading(init, id);
    }
  }

  ghost predicate IsFirstRepeatAt(lines: seq<string>, id: string, j: int) {
    && 0 <= j < |lines| && Classify(lines[j]) == Heading(id)
    && id in HeadingIds(lines[..j]) && HeadingsAreDistinct(lines[..j])
  }

  ghost predicate IsFirstRepeat(lines: seq<string>, id: string) {
    exists j :: IsFirstRepeatAt(lines, id, j)
  }

  /** The scan succeeds exactly on distinct headings, and then counts each task's own boxes. */
  lemma {:induction false} ScanIsSectional(lines: seq<string>)
    ensures ScanAll(lines).Ok? <==> HeadingsAreDistinct(lines)
    ensures ScanAll(lines).Ok? ==> IsReading(lines, ScanAll(lines).value)
    ensures ScanAll(lines).Err? ==> IsFirstRepeat(lines, ScanAll(lines).error)
  {
    if lines == [] {
    } else {
      var init, line := lines[..|lines| - 1], lines[|lines| - 1];
      assert lines == init + [line];
      ScanIsSectional(init);
      DistinctSnoc(init, line);
      if ScanAll(init).Err? {
        var j :| IsFirstRepeatAt(init, ScanAll(init).error, j);
        assert lines[..j] == init[..j];
        assert IsFirstRepeatAt(lines, ScanAll(init).error, j);
      } else {
        StepKeepsReading(init, line, ScanAll(init).value);
        if Step(ScanAll(init).value, line).Err? {
          assert IsFirstRepeatAt(lines, Classify(line).id, |init|);
        }
      }
    }
  }

  lemma StepKeepsReading(init: seq<string>, line: string, s: Scan)
    requires IsReading(init, s)
    ensures Step(s, line).Err? <==> Classify(line).Heading? && Classify(line).id in HeadingIds(init)
    ensures Step(s, line).Err? ==> Step(s, line).error == Classify(line).id
    ensures Step(s, line).Ok? ==> IsReading(init + [line], Step(s, line).value)
  {
    if Step(s, line).Ok? {
      StepTracksHeadings(init, line, s);
      forall id | id in Step(s, line).value.tasks
        ensures Step(s, line).value.tasks[id] == BoxesOf(init + [line], id)
      {
        StepCountsBoxes(init, line, s, id);
      }
    }
  }

  lemma StepTracksHeadings(init: seq<string>, line: string, s: Scan)
    requires IsReading(init, s) && Step(s, line).Ok?
    ensures Step(s, line).value.tasks.Keys == HeadingIds(init + [line])
    ensures Step(s, line).value.current == Owner(init + [line])
    ensures Owner(init + [line]).Some? ==> Owner(init + [line]).value in Step(s, line).value.tasks
  {
    hide Classify;
    HeadingIdsSnoc(init, line);
    assert (init + [line])[..|init|] == init;
  }

  lemma StepCountsBoxes(init: seq<string>, line: string, s: Scan, id: string)
    requires IsReading(init, s) && Step(s, line).Ok? && id in Step(s, line).value.tasks
    ensures Step(s, line).value.tasks[id] == BoxesOf(init + [line], id)
  {
    BoxesSnoc(init, line, id);
    if id !in HeadingIds(init) {
      NoBoxesWithoutHeading(init, id);
    }
  }

  lemma BoxesSnoc(init: seq<string>, line: string, id: string)
    ensures BoxesOf(init + [line], id)
         == if Classify(line).Box? && Owner(init) == Some(id) then WithBox(BoxesOf(init, id), Classify(line).checked)
            else BoxesOf(init, id)
  {
    assert (init + [line])[..|init|] == init;
  }

  ghost function Totals(tasks: map<string, Tally>): map<string, nat> {
    map id | id in tasks :: tasks[id].total
  }

  /** What the parser returns for a master file, section by section. */
  lemma MasterIsSectional(lines: seq<string>)
    ensures Parse(lines).Ok? <==> HeadingsAreDistinct(lines)
    ensures Parse(lines).Err? ==> IsFirstRepeat(lines, Parse(lines).error)
    ensures Parse(lines).Ok? ==>
      && Parse(lines).value.Keys == HeadingIds(lines)
      && Sum(Totals(Parse(lines).value)) == OwnedBoxes(lines)
      && forall id :: id in HeadingIds(lines) ==>
           && Parse(lines).value[id] == BoxesOf(lines, id)
           && BoxesOf(lines, id).checked <= BoxesOf(lines, id).total
  {
    ScanIsSectional(lines);
    if ScanAll(lines).Ok? {
      forall id ensures BoxesOf(lines, id).checked <= BoxesOf(lines, id).total {
        CheckedIsBounded(lines, id);
      }
      TotalsAreOwnedBoxes(lines);
    }
  }

  lemma {:induction false} CheckedIsBounded(lines: seq<string>, id: string)
    ensures BoxesOf(lines, id).checked <= BoxesOf(lines, id).total
  {
    if lines == [] {
    } else {
      CheckedIsBounded(lines[..|lines| - 1], id);
    }
  }

  // ----- Totals -----

  lemma TotalsAfterUpdate(tasks: map<string, Tally>, id: string, t: Tally)
    ensures Sum(Totals(tasks[id := t]))
         == Sum(Totals(tasks)) - (if id in tasks then tasks[id].total else 0) + t.total
  {
    SumAfterUpdate(Totals(tasks), id, t.total);
    assert Totals(tasks[id := t]) == Totals(tasks)[id := t.total];
  }

  lemma {:induction false} TotalsAreOwnedBoxes(lines: seq<string>)
    requires ScanAll(lines).Ok?
    ensures Sum(Totals(ScanAll(lines).value.tasks)) == OwnedBoxes(lines)
  {
    if lines == [] {
    } else {
      var init, line := lines[..|lines| - 1], lines[|lines| - 1];
      TotalsAreOwnedBoxes(init);
      ScanIsSectional(init);
      var s := ScanAll(init).value;
      match Classify(line) {
        case Heading(id) => TotalsAfterUpdate(s.tasks, id, Tally(0, 0));
        case Box(checked) =>
          if s.current.Some? {
            TotalsAfterUpdate(s.tasks, s.current.value, ScanAll(lines).value.tasks[s.current.value]);
          }
        case _ =>
      }
    }
  }

  // ----- Concatenation -----

  /** The part begins with a task heading or with a break, or has no lines. */
  predicate StartsSection(lines: seq<string>) {
    lines == [] || Classify(lines[0]).Heading? || Classify(lines[0]).Break?
  }

  lemma {:induction false} OwnerOfConcat(a: seq<string>, b: seq<string>)
    requires StartsSection(b) && b != []
    ensures Owner(a + b) == Owner(b)
  {
    var init := b[..|b| - 1];
    assert (a + b)[..|a + b| - 1] == a + init;
    if init == [] {
    } else {
      OwnerOfConcat(a, init);
    }
  }

  lemma {:induction false} BoxesOfConcat(a: seq<string>, b: seq<string>, id: string)
    requires StartsSection(b)
    ensures BoxesOf(a + b, id).total == BoxesOf(a, id).total + BoxesOf(b, id).total
    ensures BoxesOf(a + b, id).checked == BoxesOf(a, id).checked + BoxesOf(b, id).checked
  {
    if b == [] {
      assert a + b == a;
    } else {
      var init := b[..|b| - 1];
      assert (a + b)[..|a + b| - 1] == a + init;
      BoxesOfConcat(a, init, id);
      if init != [] {
        OwnerOfConcat(a, init);
      }
    }
  }

  lemma HeadingsOfConcat(a: seq<string>, b: seq<string>)
    ensures HeadingIds(a + b) == HeadingIds(a) + HeadingIds(b)
    ensures HeadingsAreDistinct(a + b)
       <==> HeadingsAreDistinct(a) && HeadingsAreDistinct(b) && HeadingIds(a) !! HeadingIds(b)
  {
    var lines := a + b;
    assert forall i :: 0 <= i < |a| ==> lines[i] == a[i];
    assert forall i :: 0 <= i < |b| ==> lines[|a| + i] == b[i];
    forall id ensures id in HeadingIds(lines) <==> id in HeadingIds(a) || id in HeadingIds(b) {
      if id in HeadingIds(lines) {
        var i :| 0 <= i < |lines| && Classify(lines[i]).Heading? && Classify(lines[i]).id == id;
        assert i >= |a| ==> lines[i] == b[i - |a|];
      }
      if id in HeadingIds(b) {
        var i :| 0 <= i < |b| && Classify(b[i]).Heading? && Classify(b[i]).id == id;
        assert Classify(lines[|a| + i]).id == id;
      }
      if id in HeadingIds(a) {
        var i :| 0 <= i < |a| && Classify(a[i]).Heading? && Classify(a[i]).id == id;
        assert Classify(lines[i]).id == id;
      }
    }
    if HeadingsAreDistinct(lines) {
      forall i, j | 0 <= i < j < |b| && Classify(b[i]).Heading? && Classify(b[j]).Heading?
        ensures Classify(b[i]).id != Classify(b[j]).id
      {
        assert Classify(lines[|a| + i]).id != Classify(lines[|a| + j]).id;
      }
      forall id | id in HeadingIds(a) ensures id !in HeadingIds(b) {
        var i :| 0 <= i < |a| && Classify(a[i]).Heading? && Classify(a[i]).id == id;
        assert forall j :: 0 <= j < |b| && Classify(b[j]).Heading? ==>
                 Classify(lines[i]).id != Classify(lines[|a| + j]).id;
      }
    }
    if HeadingsAreDistinct(a) && HeadingsAreDistinct(b) && HeadingIds(a) !! HeadingIds(b) {
      forall i, j | 0 <= i < j < |lines| && Classify(lines[i]).Heading? && Classify(lines[j]).Heading?
        ensures Classify(lines[i]).id != Classify(lines[j]).id
      {
        if i < |a| <= j {
          assert Classify(a[i]).id in HeadingIds(a) && Classify(b[j - |a|]).id in HeadingIds(b);
        }
      }
    }
  }

  /**
   A file cut before a section parses exactly when both parts parse and share no task, and the
   result is then the union of the parts.
   */
  lemma ParseOfConcat(a: seq<string>, b: seq<string>)
    requires StartsSection(b)
    ensures Parse(a + b).Ok? <==>
      Parse(a).Ok? && Parse(b).Ok? && Parse(a).value.Keys !! Parse(b).value.Keys
    ensures Parse(a + b).Ok? ==> Parse(a + b).value == Parse(a).value + Parse(b).value
  {
    ScanIsSectional(a);
    ScanIsSectional(b);
    ScanIsSectional(a + b);
    HeadingsOfConcat(a, b);
    if Parse(a + b).Ok? {
      var whole, p, q := Parse(a + b).value, Parse(a).value, Parse(b).value;
      forall id | id in whole ensures whole[id] == if id in q then q[id] else p[id] {
        TaskOfConcat(a, b, id);
      }
      UnionByEntries(whole, p, q);
    }
  }

  lemma UnionByEntries(whole: map<string, Tally>, p: map<string, Tally>, q: map<string, Tally>)
    requires whole.Keys == p.Keys + q.Keys
    requires forall id :: id in whole ==> whole[id] == if id in q then q[id] else p[id]
    ensures whole == p + q
  {
    assert whole.Keys == (p + q).Keys;
  }

  lemma TaskOfConcat(a: seq<string>, b: seq<string>, id: string)
    requires StartsSection(b) && HeadingIds(a) !! HeadingIds(b)
    ensures BoxesOf(a + b, id) == if id in HeadingIds(b) then BoxesOf(b, id) else BoxesOf(a, id)
  {
    BoxesOfConcat(a, b, id);
    NoBoxesWithoutHeading(if id in HeadingIds(b) then a else b, id);
  }

  /** The same, for texts: the first one ends with a line feed. */
  lemma ParseOfConcatenatedTexts(a: string, b: string)
    requires a != "" && a[|a| - 1] == '\n' && StartsSection(SplitLines(b))
    ensures var whole, p, q := Parse(SplitLines(a + b)), Parse(SplitLines(a)), Parse(SplitLines(b));
            && (whole.Ok? <==> p.Ok? && q.Ok? && p.value.Keys !! q.value.Keys)
            && (whole.Ok? ==> whole.value == p.value + q.value)
  {
    LinesOfConcat("", a, b);
    ParseOfConcat(SplitLines(a), SplitLines(b));
  }

  // ----- The same, in the texts of the lines -----

  /** `##`, white space, a task id, and a word end. */
  ghost predicate IsHeadingOf(line: string, id: string) {
    IsTaskId(id) && exists space, tail :: IsHeadingText(line, id, space, tail)
  }

  ghost predicate IsHeadingLine(line: string) {
    exists id :: IsHeadingOf(line, id)
  }

  /** An H1 or H2 that names no task. */
  ghost predicate IsBreakLine(line: string) {
    ("# " <= line || "## " <= line) && !IsHeadingLine(line)
  }

  /** A checkbox with the given mark, in a line that is no heading. */
  ghost predicate IsBoxLine(line: string, mark: char) {
    && !IsHeadingLine(line) && !("# " <= line) && !("## " <= line)
    && exists lead, gap, tail :: IsCheckboxText(line, mark, lead, gap, tail)
  }

  ghost predicate IsTicked(line: string) {
    IsBoxLine(line, 'x') || IsBoxLine(line, 'X')
  }

  ghost predicate IsUnticked(line: string) {
    IsBoxLine(line, ' ')
  }

  /** What the scan makes of a line, read off its text. */
  lemma KindOfLine(line: string)
    ensures forall id :: Classify(line) == Heading(id) <==> IsHeadingOf(line, id)
    ensures Classify(line).Heading? <==> IsHeadingLine(line)
    ensures Classify(line) == Break <==> IsBreakLine(line)
    ensures Classify(line) == Box(true) <==> IsTicked(line)
    ensures Classify(line) == Box(false) <==> IsUnticked(line)
  {
    hide IsHeadingText, IsCheckboxText, TaskHeading, Checkbox, IsTaskId;
    HeadingOfLine(line);
    MarkOfLine(line, ' ');
    MarkOfLine(line, 'x');
    MarkOfLine(line, 'X');
    MarksOfLine(line);
  }

  lemma HeadingOfLine(line: string)
    ensures forall id :: TaskHeading(line) == Some(id) <==> IsHeadingOf(line, id)
    ensures TaskHeading(line).Some? <==> IsHeadingLine(line)
  {
    hide IsHeadingText, TaskHeading, IsTaskId;
    forall id ensures TaskHeading(line) == Some(id) <==> IsHeadingOf(line, id) {
      TaskHeadingIff(line, id);
    }
    if TaskHeading(line).Some? {
      assert IsHeadingOf(line, TaskHeading(line).value);
    }
  }

  lemma MarkOfLine(line: string, mark: char)
    ensures Checkbox(line) == Some(mark) && !IsHeadingLine(line) && !("# " <= line) && !("## " <= line)
       <==> IsBoxLine(line, mark)
  {
    hide IsCheckboxText, Checkbox, IsHeadingLine;
    CheckboxIff(line, mark);
  }

  lemma MarksOfLine(line: string)
    ensures Checkbox(line).Some? ==>
      Checkbox(line) == Some(' ') || Checkbox(line) == Some('x') || Checkbox(line) == Some('X')
  {
  }

  /** Line `h` is a heading of the task, and no heading or break stands between it and line `k`. */
  ghost predicate IsNearestHeading(lines: seq<string>, h: int, k: int, id: string) {
    && 0 <= h < k <= |lines|
    && IsHeadingOf(lines[h], id)
    && forall j :: h < j < k ==> !IsHeadingLine(lines[j]) && !IsBreakLine(lines[j])
  }

  /** Line `k` stands in the section of the task. */
  ghost predicate IsUnder(lines: seq<string>, k: int, id: string) {
    exists h :: IsNearestHeading(lines, h, k, id)
  }

  ghost function TickedUnder(lines: seq<string>, id: string): set<int> {
    set k | 0 <= k < |lines| && IsTicked(lines[k]) && IsUnder(lines, k, id)
  }

  ghost function UntickedUnder(lines: seq<string>, id: string): set<int> {
    set k | 0 <= k < |lines| && IsUnticked(lines[k]) && IsUnder(lines, k, id)
  }

  lemma {:induction false} OwnerIsNearest(lines: seq<string>, id: string)
    ensures Owner(lines) == Some(id) <==> IsUnder(lines, |lines|, id)
  {
    hide Classify, IsHeadingOf, IsHeadingLine, IsBreakLine, IsTicked, IsUnticked, IsNearestHeading;
    if lines == [] {
      NothingUnder(id);
    } else {
      var n := |lines| - 1;
      OwnerIsNearest(lines[..n], id);
      KindOfLine(lines[n]);
      UnderAfterLine(lines, id);
    }
  }

  lemma UnderAfterLine(lines: seq<string>, id: string)
    requires lines != []
    ensures var n := |lines| - 1;
            IsUnder(lines, |lines|, id) <==>
              || IsHeadingOf(lines[n], id)
              || (!IsHeadingLine(lines[n]) && !IsBreakLine(lines[n]) && IsUnder(lines[..n], n, id))
  {
    hide IsHeadingOf, IsHeadingLine, IsBreakLine, IsNearestHeading;
    var n := |lines| - 1;
    if IsHeadingOf(lines[n], id) {
      LastHeadingIsNearest(lines, id);
    } else {
      forall h
        ensures IsNearestHeading(lines, h, |lines|, id) <==>
          !IsHeadingLine(lines[n]) && !IsBreakLine(lines[n]) && IsNearestHeading(lines[..n], h, n, id)
      {
        NearestInPrefix(lines, h, id);
      }
    }
  }

  lemma LastHeadingIsNearest(lines: seq<string>, id: string)
    requires lines != [] && IsHeadingOf(lines[|lines| - 1], id)
    ensures IsUnder(lines, |lines|, id)
  {
    assert IsNearestHeading(lines, |lines| - 1, |lines|, id);
  }

  lemma NearestInPrefix(lines: seq<string>, h: int, id: string)
    requires lines != [] && !IsHeadingOf(lines[|lines| - 1], id)
    ensures var n := |lines| - 1;
            IsNearestHeading(lines, h, |lines|, id) <==>
              !IsHeadingLine(lines[n]) && !IsBreakLine(lines[n]) && IsNearestHeading(lines[..n], h, n, id)
  {
    hide IsHeadingOf, IsHeadingLine, IsBreakLine;
    var n := |lines| - 1;
    assert forall j :: 0 <= j < n ==> lines[..n][j] == lines[j];
  }

  lemma UnderInPrefix(lines: seq<string>, k: int, id: string)
    requires lines != [] && k < |lines|
    ensures IsUnder(lines, k, id) <==> IsUnder(lines[..|lines| - 1], k, id)
  {
    hide IsHeadingOf, IsHeadingLine, IsBreakLine;
    var init := lines[..|lines| - 1];
    assert forall j :: 0 <= j < |init| ==> init[j] == lines[j];
    forall h ensures IsNearestHeading(lines, h, k, id) <==> IsNearestHeading(init, h, k, id) {
    }
  }

  lemma LastIsCounted(lines: seq<string>, id: string)
    requires lines != []
    ensures var n := |lines| - 1;
            && |TickedUnder(lines, id)|
               == |TickedUnder(lines[..n], id)| + (if IsTicked(lines[n]) && IsUnder(lines, n, id) then 1 else 0)
            && |UntickedUnder(lines, id)|
               == |UntickedUnder(lines[..n], id)| + (if IsUnticked(lines[n]) && IsUnder(lines, n, id) then 1 else 0)
  {
    hide IsTicked, IsUnticked, IsUnder;
    var n := |lines| - 1;
    var init, ticked, unticked := lines[..n], TickedUnder(lines[..n], id), UntickedUnder(lines[..n], id);
    forall k | 0 <= k < n
      ensures k in TickedUnder(lines, id) <==> k in ticked
      ensures k in UntickedUnder(lines, id) <==> k in unticked
    {
      assert init[k] == lines[k];
      UnderInPrefix(lines, k, id);
    }
    assert TickedUnder(lines, id) - {n} == ticked && UntickedUnder(lines, id) - {n} == unticked;
    OneMore(TickedUnder(lines, id), ticked, n);
    OneMore(UntickedUnder(lines, id), unticked, n);
  }

  lemma OneMore(now: set<int>, before: set<int>, n: int)
    requires n !in before && now - {n} == before
    ensures |now| == |before| + if n in now then 1 else 0
  {
    assert n in now ==> now == before + {n};
  }

  /** The tally of a task counts the ticked and the unticked checkbox lines of its section. */
  lemma {:induction false} BoxesAreBoxLines(lines: seq<string>, id: string)
    ensures BoxesOf(lines, id).checked == |TickedUnder(lines, id)|
    ensures BoxesOf(lines, id).total == |TickedUnder(lines, id)| + |UntickedUnder(lines, id)|
  {
    hide Classify, IsTicked, IsUnticked, IsUnder, TickedUnder, UntickedUnder;
    if lines == [] {
      NothingUnder(id);
    } else {
      var n := |lines| - 1;
      BoxesAreBoxLines(lines[..n], id);
      KindOfLine(lines[n]);
      OwnerIsNearest(lines[..n], id);
      UnderInPrefix(lines, n, id);
      LastIsCounted(lines, id);
    }
  }

  lemma NothingUnder(id: string)
    ensures TickedUnder([], id) == {} && UntickedUnder([], id) == {} && !IsUnder([], 0, id)
  {
  }

  /**
   The parser in the texts of the lines: it accepts exactly the files in which no two headings name one
   task, and gives each named task the number of ticked and of all checkboxes in its section.
   */
  lemma ParseCountsBoxLines(lines: seq<string>)
    ensures Parse(lines).Ok? <==>
      forall i, j, id :: 0 <= i < j < |lines| ==> !(IsHeadingOf(lines[i], id) && IsHeadingOf(lines[j], id))
    ensures Parse(lines).Ok? ==> forall id ::
      && (id in Parse(lines).value <==> exists i :: 0 <= i < |lines| && IsHeadingOf(lines[i], id))
      && (id in Parse(lines).value ==>
            && Parse(lines).value[id].checked == |TickedUnder(lines, id)|
            && Parse(lines).value[id].total == |TickedUnder(lines, id)| + |UntickedUnder(lines, id)|)
  {
    hide Classify, IsHeadingOf, TickedUnder, UntickedUnder, Parse;
    MasterIsSectional(lines);
    forall i | 0 <= i < |lines| ensures forall id :: Classify(lines[i]) == Heading(id) <==> IsHeadingOf(lines[i], id) {
      KindOfLine(lines[i]);
    }
    forall id
      ensures BoxesOf(lines, id).checked == |TickedUnder(lines, id)|
      ensures BoxesOf(lines, id).total == |TickedUnder(lines, id)| + |UntickedUnder(lines, id)|
    {
      BoxesAreBoxLines(lines, id);
    }
  }

  /** A rejected file repeats, on its earliest repeating line, a task of an earlier heading. */
  lemma RejectedAtFirstRepeat(lines: seq<string>) returns (i: nat, j: nat)
    requires Parse(lines).Err?
    ensures i < j < |lines| && IsHeadingOf(lines[i], Parse(lines).error) && IsHeadingOf(lines[j], Parse(lines).error)
    ensures forall k, l, id :: 0 <= k < l < j ==> !(IsHeadingOf(lines[k], id) && IsHeadingOf(lines[l], id))
  {
    hide Classify, IsHeadingOf, Parse;
    MasterIsSectional(lines);
    var id := Parse(lines).error;
    j :| IsFirstRepeatAt(lines, id, j);
    i :| 0 <= i < j && Classify(lines[i]).Heading? && Classify(lines[i]).id == id;
    forall k | 0 <= k < |lines| ensures forall id :: Classify(lines[k]) == Heading(id) <==> IsHeadingOf(lines[k], id) {
      KindOfLine(lines[k]);
    }
    assert forall k :: 0 <= k < j ==> lines[..j][k] == lines[k];
  }

  /** The character classes of the patterns, spelled out. */
  lemma CharacterClasses(c: char)
    ensures IsUpperLetter(c) <==> c in CAPITALS
    ensures IsDigit(c) <==> c in DIGITS
    ensures IsIdChar(c) <==> c in CAPITALS || c in DIGITS
    ensures IsWordChar(c) <==> c in CAPITALS || c in DIGITS || c in SMALL_LETTERS || c == '_'
  {
    hide CAPITALS, DIGITS, SMALL_LETTERS;
    Capitals(c);
    Digits(c);
    SmallLetters(c);
  }

  predicate AllDigits(s: string) {
    forall i :: 0 <= i < |s| ==> IsDigit(s[i])
  }

  ghost predicate IsTaskIdText(id: string, prefix: string, year: string, number: string) {
    && id == prefix + "-" + year + "-" + number
    && prefix != "" && IsUpperLetter(prefix[0]) && (forall i :: 0 <= i < |prefix| ==> IsIdChar(prefix[i]))
    && |year| == 4 && AllDigits(year) && |number| == 3 && AllDigits(number)
  }

  /** A task id is a prefix that starts with a capital, four digits and three digits, joined by dashes. */
  lemma TaskIdIff(id: string)
    ensures IsTaskId(id) <==> exists prefix, year, number :: IsTaskIdText(id, prefix, year, number)
  {
    if IsTaskId(id) {
      TaskIdParts(id);
    }
    forall prefix, year, number | IsTaskIdText(id, prefix, year, number) ensures IsTaskId(id) {
      JoinedPartsAreTaskId(id, prefix, year, number);
    }
  }

  lemma TaskIdParts(id: string)
    requires IsTaskId(id)
    ensures var n := |id| - 9;
            IsTaskIdText(id, id[..n], id[n + 1..n + 5], id[n + 6..])
  {
    hide IsUpperLetter, IsIdChar, IsDigit;
    var n := |id| - 9;
    var prefix, year, number := id[..n], id[n + 1..n + 5], id[n + 6..];
    assert id == prefix + "-" + year + "-" + number;
    assert forall i :: 0 <= i < 4 ==> year[i] == id[n + 1 + i];
    assert forall i :: 0 <= i < 3 ==> number[i] == id[n + 6 + i];
  }

  lemma JoinedPartsAreTaskId(id: string, prefix: string, year: string, number: string)
    requires IsTaskIdText(id, prefix, year, number)
    ensures IsTaskId(id)
  {
    hide IsUpperLetter, IsIdChar, IsDigit;
    var n := |prefix|;
    assert |id| - 9 == n;
    assert forall i :: 0 <= i < n ==> id[i] == prefix[i];
    assert forall i :: n < i < n + 5 ==> id[i] == year[i - n - 1];
    assert forall i :: n + 5 < i < n + 9 ==> id[i] == number[i - n - 6];
  }
}
