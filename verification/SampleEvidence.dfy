/** Evidence texts the gate accepts as complete, and which of them the reference check looks at. */
module SampleEvidence {
  import opened Outcomes
  import opened Text
  import opened Frontmatter
  import opened EvidenceText
  import opened MasterTasks
  import opened EvidenceGate

  /** The fields that must say NONE once nothing is left open. */
  const OPEN_FIELDS := ["unproven_requirements", "known_blockers", "locally_actionable_remaining", "unblock_condition"]

  /** A value with which the gate accepts completion; the status is left open. */
  function SampleValue(id: string, status: string, key: string): string {
    if key in REALITY_GATES || key in APPLICABILITY then "PASS"
    else if key in OPEN_FIELDS then "NONE"
    else if key == "task_id" then id
    else if key == "status" then status
    else if key == "dependency_chain_blocked" then "FALSE"
    else if key == "updated_at" then "2026-01-01"
    else "LANCAR"
  }

  function SampleEntries(id: string, status: string): (entries: seq<Entry>)
    ensures |entries| == |REQUIRED|
    ensures forall i :: 0 <= i < |REQUIRED| ==>
      entries[i].key == REQUIRED[i] && entries[i].raw == SampleValue(id, status, REQUIRED[i])
  {
    seq(|REQUIRED|, i requires 0 <= i < |REQUIRED| => Entry(REQUIRED[i], SampleValue(id, status, REQUIRED[i])))
  }

  /** All required fields, the given status, and a body of bare headings. */
  function Sample(id: string, status: string): string {
    Written(SampleEntries(id, status), BODY_HEADINGS)
  }

  // ----- Reading a sample -----

  /** When each value depends on its key only, repeated keys do not matter. */
  lemma {:induction false} DictionaryOfFunction(entries: seq<Entry>, raw: string -> string, valueOf: string -> string)
    requires forall i :: 0 <= i < |entries| ==> entries[i].raw == raw(entries[i].key)
    ensures var d := Dictionary(entries, valueOf);
            && (forall i :: 0 <= i < |entries| ==> entries[i].key in d)
            && forall k :: k in d ==> d[k] == valueOf(raw(k))
  {
    if entries == [] {
    } else {
      DictionaryOfFunction(entries[..|entries| - 1], raw, valueOf);
    }
  }

  lemma {:induction false} JoinContains(parts: seq<string>, separator: string, i: nat)
    requires i < |parts|
    ensures Contains(Join(parts, separator), parts[i])
  {
    var text := Join(parts, separator);
    if |parts| == 1 {
      assert OccursAt(text, parts[i], 0);
    } else if i == 0 {
      assert OccursAt(text, parts[0], 0);
    } else {
      var rest := Join(parts[1..], separator);
      JoinContains(parts[1..], separator, i - 1);
      var k :| 0 <= k <= |rest| && OccursAt(rest, parts[i], k);
      var lead := parts[0] + separator;
      assert text == lead + rest;
      assert text[|lead| + k..|lead| + k + |parts[i]|] == rest[k..k + |parts[i]|];
      assert OccursAt(text, parts[i], |lead| + k);
    }
  }

  /** A value both parsers read as it is written. */
  predicate IsPlainValue(x: string) {
    CleanEnds(x, IsSpace) && CleanEnds(x, IsQuote) && IsOneLine(x)
  }

  lemma PlainValueIsRead(x: string)
    requires IsPlainValue(x)
    ensures StripOptionalQuotes(x) == x == Strip(x)
  {
    TrimIdentity(x, IsSpace);
  }

  lemma TaskIdsArePlain(id: string)
    requires IsTaskId(id)
    ensures IsPlainValue(id)
  {
    var n := |id| - 9;
    assert forall i :: 0 <= i < |id| ==> IsIdChar(id[i]) || id[i] == '-';
  }

  predicate IsSnakeCase(s: string) {
    forall i :: 0 <= i < |s| ==> 'a' <= s[i] <= 'z' || '0' <= s[i] <= '9' || s[i] == '_'
  }

  lemma SnakeCaseIsPlain(key: string)
    requires key != "" && IsSnakeCase(key)
    ensures IsPlainKey(key)
  {
  }

  lemma ApplicabilityIsSnakeCase(key: string)
    requires key in APPLICABILITY
    ensures key != "" && IsSnakeCase(key)
  {
  }

  lemma LeadingKeysAreSnakeCase(key: string)
    requires key in ["task_id", "status"] + REALITY_GATES + ["implementation_ref"]
    ensures key != "" && IsSnakeCase(key)
  {
  }

  lemma OpenKeysAreSnakeCase(key: string)
    requires key in OPEN_FIELDS
    ensures key != "" && IsSnakeCase(key)
  {
  }

  lemma ClosingKeysAreSnakeCase(key: string)
    requires key in ["dependency_chain_blocked", "next_eligible_task", "updated_at"]
    ensures key != "" && IsSnakeCase(key)
  {
  }

  lemma RequiredKeysArePlain(key: string)
    requires key in REQUIRED
    ensures IsPlainKey(key)
  {
    hide IsPlainKey, IsSnakeCase;
    if key in APPLICABILITY {
      ApplicabilityIsSnakeCase(key);
    } else if key in ["task_id", "status"] + REALITY_GATES + ["implementation_ref"] {
      LeadingKeysAreSnakeCase(key);
    } else if key in ["dependency_chain_blocked", "next_eligible_task", "updated_at"] {
      ClosingKeysAreSnakeCase(key);
    } else {
      OpenKeysAreSnakeCase(key);
    }
    SnakeCaseIsPlain(key);
  }

  lemma SampleValueIsPlain(id: string, status: string, key: string)
    requires IsPlainValue(id) && key != "status"
    ensures IsPlainValue(SampleValue(id, status, key))
  {
  }

  lemma SampleEntriesArePlain(id: string, status: string)
    requires IsPlainValue(id) && IsOneLine(status)
    ensures ArePlain(SampleEntries(id, status))
  {
    hide IsPlainKey, SampleValue, REQUIRED;
    forall i | 0 <= i < |REQUIRED|
      ensures IsPlainKey(REQUIRED[i]) && IsOneLine(SampleValue(id, status, REQUIRED[i]))
    {
      RequiredKeysArePlain(REQUIRED[i]);
      if REQUIRED[i] == "status" {
        assert SampleValue(id, status, "status") == status by { StatusOfSample(id, status); }
      } else {
        SampleValueIsPlain(id, status, REQUIRED[i]);
      }
    }
  }

  lemma StatusOfSample(id: string, status: string)
    ensures SampleValue(id, status, "status") == status
  {
  }

  lemma BodyHasHeadings()
    ensures forall i :: 0 <= i < |BODY_HEADINGS| ==> Contains(Join(BODY_HEADINGS, "\n"), BODY_HEADINGS[i])
  {
    hide Contains, Join, BODY_HEADINGS;
    forall i | 0 <= i < |BODY_HEADINGS| ensures Contains(Join(BODY_HEADINGS, "\n"), BODY_HEADINGS[i]) {
      JoinContains(BODY_HEADINGS, "\n", i);
    }
  }

  lemma HeadingsAreLines()
    ensures AreLines(BODY_HEADINGS)
  {
    hide IsOneLine;
    forall i | 0 <= i < |BODY_HEADINGS| ensures IsOneLine(BODY_HEADINGS[i]) {
      HeadingIsOneLine(BODY_HEADINGS[i]);
    }
  }

  lemma HeadingIsOneLine(heading: string)
    requires heading in BODY_HEADINGS
    ensures IsOneLine(heading)
  {
    assert forall i :: 0 <= i < |heading| ==> ' ' <= heading[i] <= 'z';
  }

  /** What the gate reads in a sample. */
  function SampleMeta(id: string, status: string): Meta {
    Dictionary(SampleEntries(id, status), StripOptionalQuotes)
  }

  /** Both parsers read a sample: its fields, its headings, and its status with either quote removal. */
  lemma SampleIsRead(id: string, status: string)
    requires IsPlainValue(id) && IsOneLine(status)
    ensures Strict(Sample(id, status)) == Ok(Document(SampleMeta(id, status), Join(BODY_HEADINGS, "\n")))
    ensures Get(Lenient(Sample(id, status)), "status") == StripAllQuotes(status)
  {
    hide SampleValue, REQUIRED, BODY_HEADINGS;
    SampleEntriesArePlain(id, status);
    HeadingsAreLines();
    WrittenIsReadBack(SampleEntries(id, status), BODY_HEADINGS);
    SampleField(id, status, "status", StripAllQuotes) by { StatusIsRequired(); }
    StatusOfSample(id, status);
  }

  lemma SampleField(id: string, status: string, key: string, valueOf: string -> string)
    requires key in REQUIRED
    ensures var m := Dictionary(SampleEntries(id, status), valueOf);
            key in m && m[key] == valueOf(SampleValue(id, status, key))
  {
    hide SampleValue, REQUIRED;
    DictionaryOfFunction(SampleEntries(id, status), key => SampleValue(id, status, key), valueOf);
    var entries := SampleEntries(id, status);
    var i :| 0 <= i < |REQUIRED| && REQUIRED[i] == key;
    assert entries[i].key == key;
  }

  lemma SampleMetaOf(id: string, status: string, key: string)
    requires IsPlainValue(id) && key in REQUIRED && key != "status"
    ensures var m, value := SampleMeta(id, status), SampleValue(id, status, key);
            Get(m, key) == value == Strip(value) && Norm(m, key) == Upper(value)
  {
    hide SampleValue, REQUIRED;
    SampleField(id, status, key, StripOptionalQuotes);
    SampleValueIsPlain(id, status, key);
    PlainValueIsRead(SampleValue(id, status, key));
  }

  lemma PassingFieldIsRequired(key: string)
    requires key in REALITY_GATES || key in APPLICABILITY
    ensures key in REQUIRED && key != "status"
  {
    assert key == "status" ==> |key| == 6;
  }

  lemma PassingFields(id: string, status: string, key: string)
    requires IsPlainValue(id) && (key in REALITY_GATES || key in APPLICABILITY)
    ensures Norm(SampleMeta(id, status), key) == "PASS"
  {
    hide REQUIRED, REALITY_GATES, APPLICABILITY, OPEN_FIELDS, Norm, SampleMeta;
    PassingFieldIsRequired(key);
    SampleMetaOf(id, status, key);
    assert Upper("PASS") == "PASS";
  }

  lemma OpenFieldIsRequired(key: string)
    requires key in OPEN_FIELDS
    ensures key in REQUIRED && key != "status" && key !in REALITY_GATES && key !in APPLICABILITY
  {
  }

  lemma OpenFields(id: string, status: string, key: string)
    requires IsPlainValue(id) && key in OPEN_FIELDS
    ensures Norm(SampleMeta(id, status), key) == "NONE"
  {
    hide REQUIRED, REALITY_GATES, APPLICABILITY, OPEN_FIELDS, Norm, SampleMeta;
    OpenFieldIsRequired(key);
    SampleMetaOf(id, status, key);
    assert Upper("NONE") == "NONE";
  }

  lemma IdAndDateAreRequired(id: string, status: string)
    ensures "task_id" in REQUIRED && SampleValue(id, status, "task_id") == id
    ensures "updated_at" in REQUIRED && SampleValue(id, status, "updated_at") == "2026-01-01"
  {
  }

  lemma ChainAndReferenceAreRequired(id: string, status: string)
    ensures "dependency_chain_blocked" in REQUIRED && SampleValue(id, status, "dependency_chain_blocked") == "FALSE"
    ensures "implementation_ref" in REQUIRED && SampleValue(id, status, "implementation_ref") == "LANCAR"
  {
  }

  lemma OtherFields(id: string, status: string)
    requires IsPlainValue(id)
    ensures var m := SampleMeta(id, status);
            && Strip(Get(m, "task_id")) == id && IsDate(Strip(Get(m, "updated_at")))
            && Norm(m, "dependency_chain_blocked") == "FALSE" && IsMeaningful(Get(m, "implementation_ref"))
  {
    hide REQUIRED, SampleValue, SampleMeta, Strip;
    IdAndDateAreRequired(id, status);
    ChainAndReferenceAreRequired(id, status);
    SampleMetaOf(id, status, "task_id");
    SampleMetaOf(id, status, "updated_at");
    SampleMetaOf(id, status, "dependency_chain_blocked");
    SampleMetaOf(id, status, "implementation_ref");
    assert Upper("FALSE") == "FALSE" && Upper("LANCAR") == "LANCAR";
  }

  lemma StatusIsComplete(id: string, status: string)
    requires Normalized(StripOptionalQuotes(status)) == "COMPLETE"
    ensures Norm(SampleMeta(id, status), "status") == "COMPLETE"
  {
    hide REQUIRED, SampleValue, StripOptionalQuotes, Normalized;
    StatusIsRequired();
    StatusOfSample(id, status);
    SampleField(id, status, "status", StripOptionalQuotes);
  }

  lemma SampleIsWellFormed(id: string, status: string)
    requires IsPlainValue(id) && Normalized(StripOptionalQuotes(status)) == "COMPLETE"
    ensures IsWellFormed(id, SampleMeta(id, status), Join(BODY_HEADINGS, "\n"))
    ensures Norm(SampleMeta(id, status), "status") == "COMPLETE"
  {
    hide Contains, Join, SampleMeta, BODY_HEADINGS, REQUIRED, IsDate, Strip, Norm;
    StatusIsComplete(id, status);
    OtherFields(id, status);
    BodyHasHeadings();
    forall i | 0 <= i < |REQUIRED| ensures REQUIRED[i] in SampleMeta(id, status) {
      SampleHas(id, status, REQUIRED[i]);
    }
    forall key | key in REALITY_GATES || key in APPLICABILITY ensures Norm(SampleMeta(id, status), key) in GATE_VALUES {
      PassingFields(id, status, key);
      assert GATE_VALUES[0] == "PASS";
    }
    assert STATUSES[2] == "COMPLETE";
  }

  lemma SampleHas(id: string, status: string, key: string)
    requires key in REQUIRED
    ensures key in SampleMeta(id, status)
  {
    SampleField(id, status, key, StripOptionalQuotes);
  }

  lemma SampleSupportsCompletion(id: string, status: string)
    requires IsPlainValue(id)
    ensures SupportsComplete(SampleMeta(id, status))
  {
    hide SampleMeta, Norm, IsMeaningful;
    OtherFields(id, status);
    forall key | key in REALITY_GATES || key in APPLICABILITY ensures Norm(SampleMeta(id, status), key) == "PASS" {
      PassingFields(id, status, key);
    }
    OpenFields(id, status, "unproven_requirements");
    OpenFields(id, status, "known_blockers");
    OpenFields(id, status, "locally_actionable_remaining");
    OpenFields(id, status, "unblock_condition");
  }

  /**
   A sample proves a completed task whatever way its status reads as COMPLETE; the reference check
   looks at it exactly when the quotes of the status are unambiguous.
   */
  lemma SampleIsAcceptable(id: string, t: Tally, status: string)
    requires IsTaskId(id) && IsCompleteInMaster(t)
    requires IsOneLine(status) && Normalized(StripOptionalQuotes(status)) == "COMPLETE"
    ensures IsAcceptable(id, t, Sample(id, status))
    ensures IsScanned(Sample(id, status)) <==> QuotesAreUnambiguous(Strip(status))
  {
    hide IsTaskId, IsWellFormed, SupportsComplete;
    TaskIdsArePlain(id);
    SampleIsWellFormed(id, status);
    SampleSupportsCompletion(id, status);
    SampleIsRead(id, status);
    BothCompleteAgree(status);
  }

  /** Each completed task has an acceptable evidence text the reference check scans, and one it passes over. */
  lemma CompletionCanBeScannedOrHidden(id: string, t: Tally) returns (scanned: string, hidden: string)
    requires IsTaskId(id) && IsCompleteInMaster(t)
    ensures IsAcceptable(id, t, scanned) && IsScanned(scanned)
    ensures IsAcceptable(id, t, hidden) && !IsScanned(hidden)
  {
    hide IsTaskId, IsAcceptable, IsScanned, Sample, QuotesAreUnambiguous, Normalized;
    hide StripOptionalQuotes, StripAllQuotes;
    PlainCompletion();
    QuotedCompletion();
    scanned, hidden := Sample(id, "COMPLETE"), Sample(id, "\"COMPLETE \"");
    SampleIsAcceptable(id, t, "COMPLETE");
    SampleIsAcceptable(id, t, "\"COMPLETE \"");
  }

  lemma PlainCompletion()
    ensures IsOneLine("COMPLETE") && Normalized(StripOptionalQuotes("COMPLETE")) == "COMPLETE"
    ensures QuotesAreUnambiguous(Strip("COMPLETE"))
  {
    PlainValueIsRead("COMPLETE");
    assert Upper("COMPLETE") == "COMPLETE";
  }

  lemma QuotedCompletion()
    ensures var value := "\"COMPLETE \"";
            IsOneLine(value) && Normalized(StripOptionalQuotes(value)) == "COMPLETE"
            && !QuotesAreUnambiguous(Strip(value))
  {
    hide Normalized, StripOptionalQuotes, StripAllQuotes;
    QuotedBlankHidesCompletion();
    TrimIdentity("\"COMPLETE \"", IsSpace);
  }
}
