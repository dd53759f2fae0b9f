/** The evidence gate: what a task's evidence must say, and when a whole repository passes. */
module EvidenceGate {
  import opened Outcomes
  import opened Text
  import opened Frontmatter
  import opened MasterTasks

  const STATUSES := ["PARTIAL", "BLOCKED", "COMPLETE"]

  const GATE_VALUES := ["PASS", "PARTIAL", "FAIL", "NOT_RUN", "N/A"]

  const REALITY_GATES := ["reality_2026_003", "reality_2026_011"]

  const APPLICABILITY := ["tests", "e2e", "migration", "observability", "security_privacy", "rollback_recovery"]

  const REQUIRED := ["task_id", "status"] + REALITY_GATES + ["implementation_ref"] + APPLICABILITY
    + ["unproven_requirements", "known_blockers", "locally_actionable_remaining", "unblock_condition",
       "dependency_chain_blocked", "next_eligible_task", "updated_at"]

  const BODY_HEADINGS := [
    "## Scope Implemented", "## Files Changed", "## Commands / Checks Run",
    "## Reality Gate Evaluation", "## Unproven / Remaining"]

  const EMPTY_SENTINELS := ["", "NONE", "N/A", "NOT_RUN", "TODO", "TBD", "-"]

  function Normalized(value: string): string {
    Upper(Strip(value))
  }

  predicate IsMeaningful(value: string) {
    Normalized(value) !in EMPTY_SENTINELS
  }

  type Meta = map<string, string>

  function Get(m: Meta, key: string): string {
    if key in m then m[key] else ""
  }

  function Norm(m: Meta, key: string): string {
    Normalized(Get(m, key))
  }

  predicate IsDate(s: string) {
    && |s| == 10 && s[4] == '-' && s[7] == '-'
    && forall i :: 0 <= i < 10 && i != 4 && i != 7 ==> IsDigit(s[i])
  }

  predicate OccursAt(body: string, part: string, i: int) {
    0 <= i <= |body| - |part| && body[i..i + |part|] == part
  }

  predicate Contains(body: string, part: string) {
    exists i :: 0 <= i <= |body| && OccursAt(body, part, i)
  }

  predicate IsTouched(t: Tally) { t.checked > 0 }

  predicate IsCompleteInMaster(t: Tally) { t.total > 0 && t.checked == t.total }

  // ----- The policy -----

  /** Every required field is there and holds a value of its kind, and the body has its headings. */
  ghost predicate IsWellFormed(id: string, m: Meta, body: string) {
    && (forall i :: 0 <= i < |REQUIRED| ==> REQUIRED[i] in m)
    && Strip(Get(m, "task_id")) == id
    && Norm(m, "status") in STATUSES
    && (forall i :: 0 <= i < |REALITY_GATES| ==> Norm(m, REALITY_GATES[i]) in GATE_VALUES)
    && (forall i :: 0 <= i < |APPLICABILITY| ==> Norm(m, APPLICABILITY[i]) in GATE_VALUES)
    && IsDate(Strip(Get(m, "updated_at")))
    && Norm(m, "dependency_chain_blocked") in ["TRUE", "FALSE"]
    && (forall i :: 0 <= i < |BODY_HEADINGS| ==> Contains(body, BODY_HEADINGS[i]))
  }

  /** Partial evidence retains local work and a condition that completes it. */
  predicate SupportsPartial(m: Meta) {
    IsMeaningful(Get(m, "locally_actionable_remaining")) && IsMeaningful(Get(m, "unblock_condition"))
  }

  /** Blocked evidence has no local work left, and names the blocker, the way out and the missing proof. */
  predicate SupportsBlocked(m: Meta) {
    && Norm(m, "locally_actionable_remaining") == "NONE"
    && IsMeaningful(Get(m, "known_blockers"))
    && IsMeaningful(Get(m, "unblock_condition"))
    && IsMeaningful(Get(m, "unproven_requirements"))
  }

  /** The field passes, or does not apply for a stated reason. */
  predicate PassesOrIsExcused(m: Meta, field: string) {
    Norm(m, field) == "PASS" || (Norm(m, field) == "N/A" && IsMeaningful(Get(m, field + "_na_reason")))
  }

  /** Complete evidence passes both reality gates and everything applicable, with nothing left open. */
  ghost predicate SupportsComplete(m: Meta) {
    && (forall i :: 0 <= i < |REALITY_GATES| ==> Norm(m, REALITY_GATES[i]) == "PASS")
    && IsMeaningful(Get(m, "implementation_ref"))
    && (forall i :: 0 <= i < |APPLICABILITY| ==> PassesOrIsExcused(m, APPLICABILITY[i]))
    && Norm(m, "unproven_requirements") == "NONE"
    && Norm(m, "known_blockers") == "NONE"
    && Norm(m, "locally_actionable_remaining") == "NONE"
    && Norm(m, "unblock_condition") == "NONE"
    && Norm(m, "dependency_chain_blocked") == "FALSE"
  }

  ghost predicate SupportsStatus(m: Meta) {
    && (Norm(m, "status") == "PARTIAL" ==> SupportsPartial(m))
    && (Norm(m, "status") == "BLOCKED" ==> SupportsBlocked(m))
    && (Norm(m, "status") == "COMPLETE" ==> SupportsComplete(m))
  }

  /** The evidence text is acceptable for a task: complete exactly when the master says so. */
  ghost predicate IsAcceptable(id: string, t: Tally, text: string) {
    && Strict(text).Ok?
    && var m := Strict(text).value.fields;
    && IsWellFormed(id, m, Strict(text).value.body)
    && (Norm(m, "status") == "COMPLETE" <==> t.total > 0 && t.checked == t.total)
    && SupportsStatus(m)
  }

  function EvidenceFile(id: string): string { id + ".md" }

  /** An untouched task needs nothing; a touched one needs an acceptable evidence file. */
  ghost predicate IsProven(id: string, t: Tally, files: map<string, string>) {
    t.checked > 0 ==> id + ".md" in files && IsAcceptable(id, t, files[id + ".md"])
  }

  // ----- The gate -----

  datatype Problem =
    | CannotParse(fault: Fault) | MissingFields(fields: seq<string>) | WrongTaskId | InvalidValue(field: string)
    | MissingHeading(heading: string) | CompleteTooEarly | ShouldBeComplete
    | Unsupported(status: string, field: string) | MissingEvidence

  class Gate {
    /** The problems found so far, each with the task it concerns. */
    var errors: seq<(string, Problem)>

    constructor ()
      ensures errors == []
    {
      errors := [];
    }

    method Report(id: string, p: Problem)
      modifies this
      ensures errors == old(errors) + [(id, p)]
    {
      errors := errors + [(id, p)];
    }

    /** Appends a problem if the condition does not hold. */
    method Demand(condition: bool, id: string, p: Problem)
      modifies this
      ensures errors == if condition then old(errors) else old(errors) + [(id, p)]
      ensures |errors| == |old(errors)| + if condition then 0 else 1
      ensures old(errors) <= errors
    {
      if !condition { Report(id, p); }
    }

    method CheckRequired(id: string, m: Meta) returns (ok: bool)
      modifies this
      ensures ok <==> |errors| == |old(errors)|
      ensures old(errors) <= errors
      ensures |errors| == |old(errors)| <==> forall i :: 0 <= i < |REQUIRED| ==> REQUIRED[i] in m
    {
      var missing: seq<string> := [];
      for i := 0 to |REQUIRED|
        invariant errors == old(errors)
        invariant missing == [] <==> forall k :: 0 <= k < i ==> REQUIRED[k] in m
      {
        if REQUIRED[i] !in m { missing := missing + [REQUIRED[i]]; }
      }
      ok := missing == [];
      Demand(ok, id, MissingFields(missing));
    }

    method CheckGateValues(id: string, m: Meta, fields: seq<string>)
      modifies this
      ensures old(errors) <= errors
      ensures |errors| == |old(errors)| <==> forall i :: 0 <= i < |fields| ==> Norm(m, fields[i]) in GATE_VALUES
    {
      for i := 0 to |fields|
        invariant old(errors) <= errors
        invariant |errors| == |old(errors)| <==> forall k :: 0 <= k < i ==> Norm(m, fields[k]) in GATE_VALUES
      {
        Demand(Norm(m, fields[i]) in GATE_VALUES, id, InvalidValue(fields[i]));
      }
    }

    method CheckShape(id: string, m: Meta, body: string)
      requires forall i :: 0 <= i < |REQUIRED| ==> REQUIRED[i] in m
      modifies this
      ensures old(errors) <= errors
      ensures |errors| == |old(errors)| <==> IsWellFormed(id, m, body)
    {
      Demand(Strip(Get(m, "task_id")) == id, id, WrongTaskId);
      Demand(Norm(m, "status") in STATUSES, id, InvalidValue("status"));
      CheckGateValues(id, m, REALITY_GATES);
      CheckGateValues(id, m, APPLICABILITY);
      Demand(IsDate(Strip(Get(m, "updated_at"))), id, InvalidValue("updated_at"));
      Demand(Norm(m, "dependency_chain_blocked") in ["TRUE", "FALSE"], id, InvalidValue("dependency_chain_blocked"));
      CheckHeadings(id, body);
    }

    method CheckHeadings(id: string, body: string)
      modifies this
      ensures old(errors) <= errors
      ensures |errors| == |old(errors)| <==>
        forall i :: 0 <= i < |BODY_HEADINGS| ==> Contains(body, BODY_HEADINGS[i])
    {
      for i := 0 to |BODY_HEADINGS|
        invariant old(errors) <= errors
        invariant |errors| == |old(errors)| <==> forall k :: 0 <= k < i ==> Contains(body, BODY_HEADINGS[k])
      {
        Demand(Contains(body, BODY_HEADINGS[i]), id, MissingHeading(BODY_HEADINGS[i]));
      }
    }

    method CheckPartial(id: string, m: Meta)
      modifies this
      ensures old(errors) <= errors
      ensures |errors| == |old(errors)| <==> SupportsPartial(m)
    {
      Demand(IsMeaningful(Get(m, "locally_actionable_remaining")), id,
             Unsupported("PARTIAL", "locally_actionable_remaining"));
      Demand(IsMeaningful(Get(m, "unblock_condition")), id, Unsupported("PARTIAL", "unblock_condition"));
    }

    method CheckBlocked(id: string, m: Meta)
      modifies this
      ensures old(errors) <= errors
      ensures |errors| == |old(errors)| <==> SupportsBlocked(m)
    {
      Demand(Norm(m, "locally_actionable_remaining") == "NONE", id,
             Unsupported("BLOCKED", "locally_actionable_remaining"));
      Demand(IsMeaningful(Get(m, "known_blockers")), id, Unsupported("BLOCKED", "known_blockers"));
      Demand(IsMeaningful(Get(m, "unblock_condition")), id, Unsupported("BLOCKED", "unblock_condition"));
      Demand(IsMeaningful(Get(m, "unproven_requirements")), id, Unsupported("BLOCKED", "unproven_requirements"));
    }

    method CheckApplicability(id: string, m: Meta)
      modifies this
      ensures old(errors) <= errors
      ensures |errors| == |old(errors)| <==>
        forall i :: 0 <= i < |APPLICABILITY| ==> PassesOrIsExcused(m, APPLICABILITY[i])
    {
      for i := 0 to |APPLICABILITY|
        invariant old(errors) <= errors
        invariant |errors| == |old(errors)| <==> forall k :: 0 <= k < i ==> PassesOrIsExcused(m, APPLICABILITY[k])
      {
        var field := APPLICABILITY[i];
        var value := Norm(m, field);
        Demand(value == "PASS" || value == "N/A", id, Unsupported("COMPLETE", field));
        if value == "N/A" {
          Demand(IsMeaningful(Get(m, field + "_na_reason")), id, Unsupported("COMPLETE", field + "_na_reason"));
        }
      }
    }

    method CheckRealityGates(id: string, m: Meta)
      modifies this
      ensures old(errors) <= errors
      ensures |errors| == |old(errors)| <==>
        forall i :: 0 <= i < |REALITY_GATES| ==> Norm(m, REALITY_GATES[i]) == "PASS"
    {
      for i := 0 to |REALITY_GATES|
        invariant old(errors) <= errors
        invariant |errors| == |old(errors)| <==> forall k :: 0 <= k < i ==> Norm(m, REALITY_GATES[k]) == "PASS"
      {
        Demand(Norm(m, REALITY_GATES[i]) == "PASS", id, Unsupported("COMPLETE", REALITY_GATES[i]));
      }
    }

    method CheckComplete(id: string, m: Meta)
      modifies this
      ensures old(errors) <= errors
      ensures |errors| == |old(errors)| <==> SupportsComplete(m)
    {
      CheckRealityGates(id, m);
      Demand(IsMeaningful(Get(m, "implementation_ref")), id, Unsupported("COMPLETE", "implementation_ref"));
      CheckApplicability(id, m);
      Demand(Norm(m, "unproven_requirements") == "NONE", id, Unsupported("COMPLETE", "unproven_requirements"));
      Demand(Norm(m, "known_blockers") == "NONE", id, Unsupported("COMPLETE", "known_blockers"));
      Demand(Norm(m, "locally_actionable_remaining") == "NONE", id,
             Unsupported("COMPLETE", "locally_actionable_remaining"));
      Demand(Norm(m, "unblock_condition") == "NONE", id, Unsupported("COMPLETE", "unblock_condition"));
      Demand(Norm(m, "dependency_chain_blocked") == "FALSE", id, Unsupported("COMPLETE", "dependency_chain_blocked"));
    }

    /** Adds no error for a task exactly when its evidence is acceptable, and never drops one. */
    method ValidateEvidence(task: TaskProgress, text: string)
      modifies this
      ensures old(errors) <= errors
      ensures |errors| == |old(errors)| <==> IsAcceptable(task.taskId, task.Counts(), text)
    {
      var id, complete := task.taskId, IsCompleteInMaster(task.Counts());
      var parsed := ParseFrontmatter(text);
      if parsed.Err? {
        Report(id, CannotParse(parsed.error));
        return;
      }
      var Document(m, body) := parsed.value;
      var present := CheckRequired(id, m);
      if !present { return; }
      CheckShape(id, m, body);
      var status := Norm(m, "status");
      Demand(status == "COMPLETE" ==> complete, id, CompleteTooEarly);
      Demand(complete ==> status == "COMPLETE", id, ShouldBeComplete);
      if status == "PARTIAL" { CheckPartial(id, m); }
      if status == "BLOCKED" { CheckBlocked(id, m); }
      if status == "COMPLETE" { CheckComplete(id, m); }
    }

    /** A touched task without an evidence file is a problem of its own. */
    method CheckTask(task: TaskProgress, files: map<string, string>)
      modifies this
      ensures old(errors) <= errors
      ensures |errors| == |old(errors)| <==> IsProven(task.taskId, task.Counts(), files)
    {
      if IsTouched(task.Counts()) {
        var file := EvidenceFile(task.taskId);
        if file !in files {
          Report(task.taskId, MissingEvidence);
        } else {
          ValidateEvidence(task, files[file]);
        }
      }
    }
  }

  // ----- The whole run -----

  ghost predicate AllAreProven(tasks: map<string, Tally>, files: map<string, string>) {
    forall id :: id in tasks ==> IsProven(id, tasks[id], files)
  }

  ghost predicate Passes(master: string, files: map<string, string>) {
    var tasks := Parse(SplitLines(master));
    tasks.Ok? && AllAreProven(tasks.value, files)
  }

  /** Exit 0 exactly when the gate passes, 2 when an input is missing or unreadable, 1 otherwise. */
  method RunGate(master: Option<string>, files: Option<map<string, string>>) returns (exit: int)
    ensures exit == 0 <==> master.Some? && files.Some? && Passes(master.value, files.value)
    ensures exit == 2 <==> master.None? || files.None? || Parse(SplitLines(master.value)).Err?
    ensures exit in {0, 1, 2}
  {
    if master.None? || files.None? { return 2; }
    var parsed := ParseMaster(SplitLines(master.value));
    if parsed.Err? { return 2; }
    var errors := CheckAll(parsed.value, files.value);
    return if errors == [] then 0 else 1;
  }

  method CheckAll(tasks: map<string, TaskProgress>, files: map<string, string>)
    returns (errors: seq<(string, Problem)>)
    requires Filed(tasks)
    ensures errors == [] <==> AllAreProven(CountsOf(tasks), files)
  {
    var gate := new Gate();
    var pending := tasks.Keys;
    while pending != {}
      invariant pending <= tasks.Keys
      invariant |gate.errors| == 0 <==>
        forall id :: id in tasks && id !in pending ==> IsProven(id, tasks[id].Counts(), files)
      decreases pending
    {
      var id :| id in pending;
      gate.CheckTask(tasks[id], files);
      pending := pending - {id};
    }
    errors := gate.errors;
    assert forall id :: id in tasks ==> CountsOf(tasks)[id] == tasks[id].Counts();
    assert forall id :: id in CountsOf(tasks) <==> id in tasks;
  }

  // ----- The policy, field by field -----

  ghost predicate IsOneOf(m: Meta, key: string, values: set<string>) {
    key in m && Upper(Strip(m[key])) in values
  }

  ghost predicate IsGateValue(m: Meta, key: string) {
    IsOneOf(m, key, {"PASS", "PARTIAL", "FAIL", "NOT_RUN", "N/A"})
  }

  ghost predicate IsFilled(m: Meta, key: string) {
    key in m && Upper(Strip(m[key])) !in {"", "NONE", "N/A", "NOT_RUN", "TODO", "TBD", "-"}
  }

  ghost predicate PassesByName(m: Meta, key: string) {
    IsOneOf(m, key, {"PASS"}) || (IsOneOf(m, key, {"N/A"}) && IsFilled(m, key + "_na_reason"))
  }

  /** Four, two and two digits joined by dashes. */
  ghost predicate IsDateText(s: string) {
    exists y, m, d :: s == y + "-" + m + "-" + d
      && |y| == 4 && AllDigits(y) && |m| == 2 && AllDigits(m) && |d| == 2 && AllDigits(d)
  }

  ghost predicate Mentions(body: string, part: string) {
    exists before, after :: body == before + part + after
  }

  ghost predicate HasTheFields(m: Meta) {
    && "task_id" in m && "status" in m && "reality_2026_003" in m && "reality_2026_011" in m
    && "implementation_ref" in m
    && "tests" in m && "e2e" in m && "migration" in m
    && "observability" in m && "security_privacy" in m && "rollback_recovery" in m
    && "unproven_requirements" in m && "known_blockers" in m && "locally_actionable_remaining" in m
    && "unblock_condition" in m && "dependency_chain_blocked" in m && "next_eligible_task" in m && "updated_at" in m
  }

  ghost predicate HasTheHeadings(body: string) {
    && Mentions(body, "## Scope Implemented") && Mentions(body, "## Files Changed")
    && Mentions(body, "## Commands / Checks Run") && Mentions(body, "## Reality Gate Evaluation")
    && Mentions(body, "## Unproven / Remaining")
  }

  ghost predicate HasTheShape(id: string, m: Meta, body: string) {
    && HasTheFields(m)
    && Strip(Get(m, "task_id")) == id
    && IsOneOf(m, "status", {"PARTIAL", "BLOCKED", "COMPLETE"})
    && IsGateValue(m, "reality_2026_003") && IsGateValue(m, "reality_2026_011")
    && IsGateValue(m, "tests") && IsGateValue(m, "e2e") && IsGateValue(m, "migration")
    && IsGateValue(m, "observability") && IsGateValue(m, "security_privacy") && IsGateValue(m, "rollback_recovery")
    && IsDateText(Strip(Get(m, "updated_at")))
    && IsOneOf(m, "dependency_chain_blocked", {"TRUE", "FALSE"})
    && HasTheHeadings(body)
  }

  ghost predicate ShowsLocalWork(m: Meta) {
    IsFilled(m, "locally_actionable_remaining") && IsFilled(m, "unblock_condition")
  }

  ghost predicate ShowsBlocker(m: Meta) {
    && IsOneOf(m, "locally_actionable_remaining", {"NONE"})
    && IsFilled(m, "known_blockers") && IsFilled(m, "unblock_condition") && IsFilled(m, "unproven_requirements")
  }

  ghost predicate ShowsCompletion(m: Meta) {
    && IsOneOf(m, "reality_2026_003", {"PASS"}) && IsOneOf(m, "reality_2026_011", {"PASS"})
    && IsFilled(m, "implementation_ref")
    && PassesByName(m, "tests") && PassesByName(m, "e2e") && PassesByName(m, "migration")
    && PassesByName(m, "observability") && PassesByName(m, "security_privacy") && PassesByName(m, "rollback_recovery")
    && IsOneOf(m, "unproven_requirements", {"NONE"}) && IsOneOf(m, "known_blockers", {"NONE"})
    && IsOneOf(m, "locally_actionable_remaining", {"NONE"}) && IsOneOf(m, "unblock_condition", {"NONE"})
    && IsOneOf(m, "dependency_chain_blocked", {"FALSE"})
  }

  /** The acceptance of an evidence text, with every field, value and heading named. */
  lemma AcceptableByName(id: string, t: Tally, text: string)
    ensures IsAcceptable(id, t, text) <==>
      && Strict(text).Ok?
      && var Document(m, body) := Strict(text).value;
      && HasTheShape(id, m, body)
      && (IsOneOf(m, "status", {"COMPLETE"}) <==> t.total > 0 && t.checked == t.total)
      && (IsOneOf(m, "status", {"PARTIAL"}) ==> ShowsLocalWork(m))
      && (IsOneOf(m, "status", {"BLOCKED"}) ==> ShowsBlocker(m))
      && (IsOneOf(m, "status", {"COMPLETE"}) ==> ShowsCompletion(m))
  {
    hide Strict, HasTheShape, IsWellFormed, ShowsLocalWork, ShowsBlocker, ShowsCompletion;
    hide SupportsPartial, SupportsBlocked, SupportsComplete, Upper, Strip;
    if Strict(text).Ok? {
      var Document(m, body) := Strict(text).value;
      ShapeByName(id, m, body);
      if HasTheShape(id, m, body) {
        ShapeHasFields(id, m, body);
        SupportByName(m);
      }
    }
  }

  lemma ShapeHasFields(id: string, m: Meta, body: string)
    requires HasTheShape(id, m, body)
    ensures HasTheFields(m)
  {
  }

  lemma FieldsByName(m: Meta)
    ensures (forall i :: 0 <= i < |REQUIRED| ==> REQUIRED[i] in m) <==> HasTheFields(m)
  {
    assert |REQUIRED| == 18;
    assert REQUIRED[0] == "task_id" && REQUIRED[1] == "status" && REQUIRED[2] == "reality_2026_003";
    assert REQUIRED[3] == "reality_2026_011" && REQUIRED[4] == "implementation_ref" && REQUIRED[5] == "tests";
    assert REQUIRED[6] == "e2e" && REQUIRED[7] == "migration" && REQUIRED[8] == "observability";
    assert REQUIRED[9] == "security_privacy" && REQUIRED[10] == "rollback_recovery";
    assert REQUIRED[11] == "unproven_requirements" && REQUIRED[12] == "known_blockers";
    assert REQUIRED[13] == "locally_actionable_remaining" && REQUIRED[14] == "unblock_condition";
    assert REQUIRED[15] == "dependency_chain_blocked" && REQUIRED[16] == "next_eligible_task";
    assert REQUIRED[17] == "updated_at";
  }

  lemma HeadingsByName(body: string)
    ensures (forall i :: 0 <= i < |BODY_HEADINGS| ==> Contains(body, BODY_HEADINGS[i])) <==> HasTheHeadings(body)
  {
    hide Contains, Mentions;
    forall part: string ensures Contains(body, part) <==> Mentions(body, part) {
      ContainsIff(body, part);
    }
    assert |BODY_HEADINGS| == 5;
    assert BODY_HEADINGS[0] == "## Scope Implemented" && BODY_HEADINGS[1] == "## Files Changed";
    assert BODY_HEADINGS[2] == "## Commands / Checks Run" && BODY_HEADINGS[3] == "## Reality Gate Evaluation";
    assert BODY_HEADINGS[4] == "## Unproven / Remaining";
  }

  /** A body contains a part when it is that part between two others. */
  lemma ContainsIff(body: string, part: string)
    ensures Contains(body, part) <==> Mentions(body, part)
  {
    if Contains(body, part) {
      var i :| 0 <= i <= |body| && OccursAt(body, part, i);
      assert body == body[..i] + part + body[i + |part|..];
    }
    forall before: string, after | body == before + part + after ensures OccursAt(body, part, |before|) {
    }
  }

  lemma DateIff(s: string)
    ensures IsDate(s) <==> IsDateText(s)
  {
    hide IsDigit, AllDigits;
    if IsDate(s) {
      PartsOfDate(s);
    }
    forall y, m, d | s == y + "-" + m + "-" + d
                  && |y| == 4 && AllDigits(y) && |m| == 2 && AllDigits(m) && |d| == 2 && AllDigits(d)
      ensures IsDate(s)
    {
      DateOfParts(s, y, m, d);
    }
  }

  lemma PartsOfDate(s: string)
    requires IsDate(s)
    ensures s == s[..4] + "-" + s[5..7] + "-" + s[8..]
    ensures AllDigits(s[..4]) && AllDigits(s[5..7]) && AllDigits(s[8..])
  {
    hide IsDigit;
    assert forall i :: 0 <= i < 2 ==> s[5..7][i] == s[5 + i] && s[8..][i] == s[8 + i];
  }

  lemma DateOfParts(s: string, y: string, m: string, d: string)
    requires s == y + "-" + m + "-" + d
    requires |y| == 4 && AllDigits(y) && |m| == 2 && AllDigits(m) && |d| == 2 && AllDigits(d)
    ensures IsDate(s)
  {
    hide IsDigit;
    assert s[0] == y[0] && s[1] == y[1] && s[2] == y[2] && s[3] == y[3];
    assert s[5] == m[0] && s[6] == m[1] && s[8] == d[0] && s[9] == d[1];
  }

  lemma GateValueIff(m: Meta, key: string)
    requires key in m
    ensures Norm(m, key) in GATE_VALUES <==> IsGateValue(m, key)
  {
    hide Upper, Strip;
  }

  lemma FilledIff(m: Meta, key: string)
    ensures IsMeaningful(Get(m, key)) <==> IsFilled(m, key)
  {
    if key !in m {
      assert Normalized("") == "";
      assert EMPTY_SENTINELS[0] == "";
    }
  }

  lemma ApplicabilityByName(holds: string -> bool)
    ensures (forall i :: 0 <= i < |APPLICABILITY| ==> holds(APPLICABILITY[i]))
       <==> && holds("tests") && holds("e2e") && holds("migration")
            && holds("observability") && holds("security_privacy") && holds("rollback_recovery")
  {
    assert |APPLICABILITY| == 6;
    assert APPLICABILITY[0] == "tests" && APPLICABILITY[1] == "e2e" && APPLICABILITY[2] == "migration";
    assert APPLICABILITY[3] == "observability" && APPLICABILITY[4] == "security_privacy";
    assert APPLICABILITY[5] == "rollback_recovery";
  }

  lemma RealityGatesByName(holds: string -> bool)
    ensures (forall i :: 0 <= i < |REALITY_GATES| ==> holds(REALITY_GATES[i]))
       <==> holds("reality_2026_003") && holds("reality_2026_011")
  {
    assert REALITY_GATES[0] == "reality_2026_003" && REALITY_GATES[1] == "reality_2026_011";
  }

  lemma GatesByName(m: Meta)
    requires HasTheFields(m)
    ensures (forall i :: 0 <= i < |REALITY_GATES| ==> Norm(m, REALITY_GATES[i]) in GATE_VALUES)
       <==> IsGateValue(m, "reality_2026_003") && IsGateValue(m, "reality_2026_011")
    ensures (forall i :: 0 <= i < |APPLICABILITY| ==> Norm(m, APPLICABILITY[i]) in GATE_VALUES)
       <==> && IsGateValue(m, "tests") && IsGateValue(m, "e2e") && IsGateValue(m, "migration")
            && IsGateValue(m, "observability") && IsGateValue(m, "security_privacy")
            && IsGateValue(m, "rollback_recovery")
  {
    hide IsGateValue, GATE_VALUES, Norm, APPLICABILITY, REALITY_GATES;
    RealityGatesByName(key => Norm(m, key) in GATE_VALUES);
    ApplicabilityByName(key => Norm(m, key) in GATE_VALUES);
    forall key | key in m ensures Norm(m, key) in GATE_VALUES <==> IsGateValue(m, key) {
      GateValueIff(m, key);
    }
  }

  lemma ShapeByName(id: string, m: Meta, body: string)
    ensures IsWellFormed(id, m, body) <==> HasTheShape(id, m, body)
  {
    hide Contains, Upper, Strip, HasTheHeadings, IsDate, IsDateText, IsGateValue, GATE_VALUES, REQUIRED, BODY_HEADINGS;
    hide APPLICABILITY, REALITY_GATES;
    FieldsByName(m);
    HeadingsByName(body);
    DateIff(Strip(Get(m, "updated_at")));
    if HasTheFields(m) {
      GatesByName(m);
    }
  }

  lemma CompletionByName(m: Meta)
    requires HasTheFields(m)
    ensures (forall i :: 0 <= i < |REALITY_GATES| ==> Norm(m, REALITY_GATES[i]) == "PASS")
       <==> IsOneOf(m, "reality_2026_003", {"PASS"}) && IsOneOf(m, "reality_2026_011", {"PASS"})
    ensures (forall i :: 0 <= i < |APPLICABILITY| ==> PassesOrIsExcused(m, APPLICABILITY[i]))
       <==> && PassesByName(m, "tests") && PassesByName(m, "e2e") && PassesByName(m, "migration")
            && PassesByName(m, "observability") && PassesByName(m, "security_privacy")
            && PassesByName(m, "rollback_recovery")
  {
    hide PassesByName, PassesOrIsExcused, APPLICABILITY, REALITY_GATES, Upper, Strip;
    RealityGatesByName(key => Norm(m, key) == "PASS");
    ApplicabilityByName(key => PassesOrIsExcused(m, key));
    forall key | key in m ensures PassesOrIsExcused(m, key) <==> PassesByName(m, key) {
      PassesIff(m, key);
    }
  }

  lemma PassesIff(m: Meta, key: string)
    requires key in m
    ensures PassesOrIsExcused(m, key) <==> PassesByName(m, key)
  {
    hide Upper, Strip, IsMeaningful, IsFilled;
    FilledIff(m, key + "_na_reason");
  }

  lemma SupportByName(m: Meta)
    requires HasTheFields(m)
    ensures SupportsPartial(m) <==> ShowsLocalWork(m)
    ensures SupportsBlocked(m) <==> ShowsBlocker(m)
    ensures SupportsComplete(m) <==> ShowsCompletion(m)
  {
    hide Upper, Strip, IsFilled, IsMeaningful, PassesByName, PassesOrIsExcused, APPLICABILITY, REALITY_GATES;
    CompletionByName(m);
    forall key ensures IsMeaningful(Get(m, key)) <==> IsFilled(m, key) {
      FilledIff(m, key);
    }
  }

  // ----- Consequences -----

  /**
   The other fields settle the status: acceptable evidence is PARTIAL when it names local work,
   else BLOCKED when it names a way out, else COMPLETE.
   */
  lemma FieldsSettleTheStatus(m: Meta)
    requires Norm(m, "status") in STATUSES && SupportsStatus(m)
    ensures Norm(m, "status")
         == if IsMeaningful(Get(m, "locally_actionable_remaining")) then "PARTIAL"
            else if IsMeaningful(Get(m, "unblock_condition")) then "BLOCKED"
            else "COMPLETE"
  {
    assert EMPTY_SENTINELS[1] == "NONE";
  }

  /** The gate is compositional: a master file cut before a section passes iff both parts do, sharing no task. */
  lemma GateIsCompositional(a: string, b: string, files: map<string, string>)
    requires a != "" && a[|a| - 1] == '\n' && StartsSection(SplitLines(b))
    ensures Passes(a + b, files) <==>
      && Passes(a, files) && Passes(b, files)
      && Parse(SplitLines(a)).value.Keys !! Parse(SplitLines(b)).value.Keys
  {
    ParseOfConcatenatedTexts(a, b);
    var p, q := Parse(SplitLines(a)), Parse(SplitLines(b));
    if p.Ok? && q.Ok? && p.value.Keys !! q.value.Keys {
      ProvenOfUnion(p.value, q.value, files);
    }
  }

  lemma ProvenOfUnion(p: map<string, Tally>, q: map<string, Tally>, files: map<string, string>)
    requires p.Keys !! q.Keys
    ensures AllAreProven(p + q, files) <==> AllAreProven(p, files) && AllAreProven(q, files)
  {
    assert forall id :: id in p ==> id in p + q && (p + q)[id] == p[id];
    assert forall id :: id in q ==> id in p + q && (p + q)[id] == q[id];
  }

  /** The reference check reads the status with the lenient parser, without trimming it again. */
  predicate IsScanned(text: string) {
    Upper(Get(Lenient(text), "status")) == "COMPLETE"
  }

  /** Values that read `COMPLETE` on both sides of the quotes question are the same value. */
  lemma BothCompleteAgree(value: string)
    requires Normalized(StripOptionalQuotes(value)) == "COMPLETE"
    ensures Upper(StripAllQuotes(value)) == "COMPLETE" <==> QuotesAreUnambiguous(Strip(value))
  {
    ValuesAgreeIff(value);
    var v, x, y := Strip(value), StripAllQuotes(value), StripOptionalQuotes(value);
    var s := if IsQuoted(v) then v[1..|v| - 1] else v;
    if IsQuoted(v) {
      TrimInsideQuotes(v);
    }
    TrimEnds(s, IsSpace);
    TrimEnds(s, IsQuote);
    TrimEnds(value, IsSpace);
    TrimUnchangedIff(y, IsSpace);
    assert Upper(y) == "COMPLETE" && y != [];
    EndsOfComplete(y);
    if Upper(x) == "COMPLETE" {
      EndsOfComplete(x);
      if !IsQuoted(v) {
        assert x == v by {
          var lead, trail := TrimSplit(v, IsQuote);
          assert |v| == 8 && |x| == 8;
        }
      }
    }
  }

  lemma EndsOfComplete(x: string)
    requires Upper(x) == "COMPLETE"
    ensures |x| == 8
    ensures !IsSpace(x[0]) && !IsQuote(x[0]) && !IsSpace(x[7]) && !IsQuote(x[7])
  {
    assert Upper(x)[0] == 'C' && Upper(x)[7] == 'E';
  }

  /**
   Evidence accepted as complete is picked up by the reference check exactly when its status has
   no white space just inside its quotes.
   */
  lemma CompleteEvidenceIsScannedIff(id: string, t: Tally, text: string)
    requires IsAcceptable(id, t, text) && IsCompleteInMaster(t)
    ensures IsScanned(text) <==> QuotesAreUnambiguous(Strip(RawField(text, "status")))
  {
    AcceptableHasStatus(id, t, text);
    BothValuesOf(text, "status");
    BothCompleteAgree(RawField(text, "status"));
  }

  /** That is, exactly when both parsers read the same status. */
  lemma ScannedIffParsersAgreeOnStatus(id: string, t: Tally, text: string)
    requires IsAcceptable(id, t, text) && IsCompleteInMaster(t)
    ensures "status" in Strict(text).value.fields && "status" in Lenient(text)
    ensures IsScanned(text) <==> Lenient(text)["status"] == Strict(text).value.fields["status"]
  {
    AcceptableHasStatus(id, t, text);
    CompleteEvidenceIsScannedIff(id, t, text);
    ParsersAgree(text);
  }

  lemma AcceptableHasStatus(id: string, t: Tally, text: string)
    requires IsAcceptable(id, t, text)
    ensures "status" in Strict(text).value.fields
  {
    hide REQUIRED, Strict, SupportsStatus, Norm, Get, IsDate, Contains, Strip;
    StatusIsRequired();
    var i :| 0 <= i < |REQUIRED| && REQUIRED[i] == "status";
  }

  lemma StatusIsRequired()
    ensures "status" in REQUIRED
  {
    assert REQUIRED[1] == "status";
  }

  /** A quoted status with a trailing blank is complete for the gate and unknown to the reference check. */
  lemma QuotedBlankHidesCompletion()
    ensures var value := "\"COMPLETE \"";
            Normalized(StripOptionalQuotes(value)) == "COMPLETE" && Upper(StripAllQuotes(value)) != "COMPLETE"
  {
    var value := "\"COMPLETE \"";
    TrimIdentity(value, IsSpace);
    var inner := value[1..|value| - 1];
    assert inner == "COMPLETE ";
    assert DropLeading(inner, IsSpace) == inner;
    assert inner[..8] == "COMPLETE";
    assert DropTrailing(inner, IsSpace) == DropTrailing("COMPLETE", IsSpace) == "COMPLETE";
    TrimIdentity("COMPLETE", IsSpace);
    assert Upper("COMPLETE") == "COMPLETE";
    BothCompleteAgree(value);
  }
}
