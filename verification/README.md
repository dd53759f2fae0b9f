# Verification of the LANCAR release, routing and admin logic

This project models five groups of decision logic of the LANCAR repository in Dafny and proves what
they promise: regional routing and outbox replay, the ordered and indexed state behind two admin
screens, the performance and rollout release gates, the task-evidence gate with its two frontmatter
parsers, and the trace-context header. `dafny verify dfyconfig.toml` checks everything.

## What is modelled

- `Replay` is the outbox replay as an object that can be resumed. Its one-pass loop is proved equal to
  a two-pass reading (one event per id, then one mutation per operation key), redelivery is proved
  invisible except in one counter, and the exact condition is given under which every operation key is
  applied in every delivery order.
- `Regions` and `Routing` are the catalog validator and the fail-closed router. Over any run of health
  snapshots the writer of a market changes at most as often as the operator changes the promotion.
- `Sections`, `CourierMap`, `Versions` and `Manifests` are the state logic of the experience editor, the
  live map and the experience overview, without their user interface.
- `Percentiles` and `PerformanceGate` are the nearest-rank percentile and the coverage gate on top of it.
- `Text`, `Frontmatter`, `MasterTasks` and `EvidenceGate` are the line-driven parsers of the task
  protocol and the gate that relates the master file to its evidence files. `EvidenceText` writes
  evidence files and proves that parsing undoes it; `SampleEvidence` writes one that the gate accepts.
- `Rollout` is the staged promotion gate, the chains of promotions it allows, and when a chain can go on.
- `Traceparent` is the version-00 header of W3C Trace Context, section 3.2.2.
- `Outcomes`, `FirstSeen` and `Sums` hold what several of these share.

Objects that the source updates in place are classes whose methods are tied to specification functions;
the properties are lemmas about those functions. Checks of a list of errors are stated as "no error
exactly when the policy holds". Where code and policy could share a helper or a table, the policy is
written in the data's own fields and names instead, and a lemma ties the helper or the table to it
(`CourierMap.TestsReadTheFields`, `Rollout.GuardrailsByName`, `EvidenceGate.AcceptableByName`,
`MasterTasks.KindOfLine`, `PerformanceGate.WithinBudgetByName`).

## Where the code does not do what one would expect

For each of these the project proves exactly when the expectation holds or what happens instead.

- Catalog validation does not ask for region ids or priorities, although routing reads both.
  `Routing.UnpromotedRoutingFaultsIff` says exactly when a valid catalog still faults;
  `Routing.ValidCatalogMayFault` is an instance.
- Replay applies every operation key in every order only if each key has an event id that carries that
  key alone (`Replay.EveryOrderAppliesEveryKeyIff`, `Replay.ConflictingIdsDependOnOrder`).
- Removing a section guards the length of the list only, so the last enabled section can be removed
  (`Sections.EditKeepsSomeEnabledIff`, `Sections.RunsKeepSomeEnabledIff`, `Sections.RemovalCanLoseTheLastEnabled`).
- The two frontmatter parsers agree on keys, but on values only when the quotes are unambiguous
  (`Frontmatter.ParsersAgree`). A quoted `COMPLETE` with white space inside its quotes is complete for
  the evidence gate and is skipped by the reference check (`EvidenceGate.CompleteEvidenceIsScannedIff`);
  `SampleEvidence.CompletionCanBeScannedOrHidden` gives whole evidence texts of both kinds for any task.
- Version comparison ignores pre-releases as well as build metadata, unlike section 11 of SemVer 2.0.0.
  `Versions.AgreesWithSemVerIff` says exactly when the two agree, and
  `Versions.PreReleaseIsTakenForItsRelease` gives the pairs that a minimum version lets through.

## Model

| member | source | states |
|---|---|---|
| FirstSeen.FirstByKeepsEachKeyOnce | scripts/region_failover_drill.py:174-185 | Keep-first by a key keeps each key that occurs exactly once and invents nothing. |
| FirstSeen.KeptIsEarliest | scripts/region_failover_drill.py:174-185 | What keep-first keeps is the earliest element carrying its key. |
| FirstSeen.AsManyKeysIffDistinct | scripts/region_failover_drill.py:57-58 | Counting distinct keys detects repetition: as many keys as elements iff none repeats. |
| Replay.Replayer.Deliver | scripts/region_failover_drill.py:175-185 | One event: suppressed by event id first, then by operation key, else applied; the whole new state. |
| Replay.Replayer.DeliverAll | scripts/region_failover_drill.py:174-185 | The loop over in-place state equals the run of the step function from any earlier state. |
| Replay.ReplayEvents | scripts/region_failover_drill.py:167-192 | The report: applied keys are the two-pass reading in order and without duplicates, and the counters balance. |
| Replay.StateIsTwoPass | scripts/region_failover_drill.py:169-185 | After any events the entire loop state is the two-pass reading of those events. |
| Replay.RefinesTwoPass | scripts/region_failover_drill.py:174-192 | Closed forms: applied keys, processed ids, and both suppression counts for every event list. |
| Replay.ResumeEqualsReplay | scripts/region_failover_drill.py:169-185 | Resuming on later events from saved state equals one replay of everything. |
| Replay.RedeliveryIsInvisible | scripts/region_failover_drill.py:177-179 | Later copies of delivered ids, interleaved anywhere, change only the duplicate-event count, by their number. |
| Replay.EveryOrderAppliesEveryKeyIff | scripts/region_failover_drill.py:174-185 | All keys are applied under every delivery order iff each key has an event id carrying only that key. |
| Replay.OrderDoesNotMatter | scripts/region_failover_drill.py:174-192 | When ids determine keys, the applied set is all keys and all counts are equal for every permutation. |
| Replay.ConflictingIdsDependOnOrder | scripts/region_failover_drill.py:177-185 | One id with two keys: the applied key depends on the order. |
| Regions.ValidateCatalog | scripts/region_failover_drill.py:48-98 | Accepts exactly the catalogs that keep all rules; a rejection names the first broken rule in order. |
| Regions.MarketsAreCovered | scripts/region_failover_drill.py:67-72 | The counting check holds iff every market has exactly one primary and some standby. |
| Regions.CountedOneIffOnlyServer | scripts/region_failover_drill.py:69-71 | A count of one is unique existence, and the counted region is that one. |
| Regions.DatasetsAreWellShaped | scripts/region_failover_drill.py:74-87 | The loop with the growing domain set checks shape and pairwise distinct domains. |
| Routing.FindRegionIsLookup | scripts/region_failover_drill.py:101-105 | Lookup returns a region iff it is the first with that id and none before it lacks an id. |
| Routing.AcceptedIffAuthorityIsReady | scripts/region_failover_drill.py:108-148 | A region accepts transactional work iff it holds authority (approved promotion, else only primary) and its entry in the snapshot says healthy and ready; without an entry nothing is accepted. |
| Routing.FaultsIffNobodyHasAuthority | scripts/region_failover_drill.py:101-123 | Transactional routing raises iff no region holds authority over the market. |
| Routing.StandbyOnlyWhenPromoted | scripts/region_failover_drill.py:115-148 | A standby is the target only when promoted, approved, healthy, ready and in the market. |
| Routing.ReadsAndWritesAgree | scripts/region_failover_drill.py:138-148 | In one snapshot transactional reads and writes agree on fault, acceptance and region. |
| Routing.SingleWriter | scripts/region_failover_drill.py:115-148 | Two accepted transactional operations of a market meet one region unless the promotion differs. |
| Routing.HandoversNeedPromotions | scripts/region_failover_drill.py:115-148 | Over any run, the writer changes at most as often as the promoted region does. |
| Routing.SortedHead | scripts/region_failover_drill.py:155-157 | The head of the stable descending sort is the first candidate of the highest priority. |
| Routing.ReadsFaultIff | scripts/region_failover_drill.py:150-155 | A non-critical read raises iff some considered region lacks its id, or reports healthy and lacks a priority to sort by. |
| Routing.ReadsAreOptimal | scripts/region_failover_drill.py:150-159 | Otherwise it picks the first of the highest-priority non-draining regions whose snapshot entry says healthy, ready or not, and rejects iff there is none. |
| Routing.TransactionalImpliesRead | scripts/region_failover_drill.py:135-159 | Accepted transactional work on a non-draining region implies the read is accepted. |
| Routing.DecisionsFailClosed | scripts/region_failover_drill.py:135-164 | A decision names a region iff it accepts, with the code of its operation and outcome; refusals are degraded; notifications never succeed; other operations fault. |
| Routing.UnpromotedRoutingFaultsIff | scripts/region_failover_drill.py:67-72 | For a market of a valid catalog without promotion: exactly when routing raises. |
| Routing.CompleteCatalogsNeverFault | scripts/region_failover_drill.py:135-164 | Valid catalogs whose regions carry ids and priorities route every supported operation. |
| Routing.ValidCatalogMayFault | scripts/region_failover_drill.py:155 | A valid catalog without a priority on which a read raises. |
| Sections.Editor.MoveSection | admin-dashboard/src/pages/AppExperienceEditor.tsx:217-223 | The two splices compute the specified move and permute the list. |
| Sections.Editor.RemoveSection | admin-dashboard/src/pages/AppExperienceEditor.tsx:224-227 | Drops one position unless the list has a single section. |
| Sections.Editor.SetSectionEnabled | admin-dashboard/src/pages/AppExperienceEditor.tsx:228-232 | Sets the flag unless that would disable the last enabled section. |
| Sections.Editor.AddSection | admin-dashboard/src/pages/AppExperienceEditor.tsx:351 | Appends a section. |
| Sections.SwitchSetsTheFlag | admin-dashboard/src/pages/AppExperienceEditor.tsx:228-232 | Switching sets the one flag to the asked value, unless it would switch off while at most one section is on; nothing else changes. |
| Sections.RemoveAndAdd | admin-dashboard/src/pages/AppExperienceEditor.tsx:224-227 | Removing takes out the position unless it is the only section, and undoes an addition at the end. |
| Sections.MoveKeepsTheOthersInOrder | admin-dashboard/src/pages/AppExperienceEditor.tsx:217-223 | The moved element lands at its target and all others keep their relative order. |
| Sections.MoveBackUndoes | admin-dashboard/src/pages/AppExperienceEditor.tsx:217-223 | Moving back undoes a move. |
| Sections.DragEqualsArrows | admin-dashboard/src/pages/AppExperienceEditor.tsx:355-356 | A drag equals its adjacent arrow moves in sequence. |
| Sections.ArrowsReachExactlyThePermutations | admin-dashboard/src/pages/AppExperienceEditor.tsx:356 | Arrow moves alone reach an order iff it is a permutation of the list. |
| Sections.EditKeepsSomeEnabledIff | admin-dashboard/src/pages/AppExperienceEditor.tsx:217-232 | An edit loses the last enabled section iff it removes the only enabled one of several. |
| Sections.RunsKeepSomeEnabledIff | admin-dashboard/src/pages/AppExperienceEditor.tsx:217-232 | A run of edits keeps an enabled section throughout iff none of its edits removes the only enabled one. |
| Sections.RunsNeverEmptyTheList | admin-dashboard/src/pages/AppExperienceEditor.tsx:225 | Over any run of edits the list is never emptied. |
| Sections.RemovalCanLoseTheLastEnabled | admin-dashboard/src/pages/AppExperienceEditor.tsx:225 | A list on which the length guard lets the last enabled section go. |
| CourierMap.OrderedIndex.Offer | admin-dashboard/src/components/LiveMap.tsx:135-138 | Offering a point keeps the index equal to the plain definition of the points seen so far. |
| CourierMap.UniqueCourierPoints | admin-dashboard/src/components/LiveMap.tsx:126-142 | One point per key, in order of first appearance, each the earliest best of its key. |
| CourierMap.IndexOfStream | admin-dashboard/src/components/LiveMap.tsx:126-142 | On a whole stream: one point per courier in order of arrival, and it is the first of the courier's best placed points. |
| CourierMap.Summarize | admin-dashboard/src/components/LiveMap.tsx:143-153 | Online and offline counts are numbers of keys and add up; the centre is the first online courier in index order, else the first courier. |
| CourierMap.CourierIndexIsUnique | admin-dashboard/src/components/LiveMap.tsx:99-104 | The plain definition determines the index completely. |
| CourierMap.TestsReadTheFields | admin-dashboard/src/components/LiveMap.tsx:79-104 | The online, placing and preference tests in terms of the status, flag, coordinates and instants of the points. |
| CourierMap.BestIsOnlineIff | admin-dashboard/src/components/LiveMap.tsx:79-104 | The chosen point of a key is online, by its own status or flag, iff one of the key's points is. |
| CourierMap.BestIsLatest | admin-dashboard/src/components/LiveMap.tsx:93-104 | No point of the key in the same online state has a later instant than the chosen one, and an earlier point has an earlier one; an unreadable instant counts as 0. |
| CourierMap.CountsAreKeyCounts | admin-dashboard/src/components/LiveMap.tsx:149-153 | The online count is the number of keys with an online point, so the clamp at zero never acts. |
| CourierMap.IndexIsFinite | admin-dashboard/src/components/LiveMap.tsx:132-146 | Every indexed point has a finite position, so the centre's second test never rejects. |
| CourierMap.KeysIdentifyCouriers | admin-dashboard/src/components/LiveMap.tsx:87-91 | Two points share a key iff same account, else same profile, else the same point. |
| Versions.CompareVersions | admin-dashboard/src/pages/AppExperienceOverview.tsx:157-170 | The sign tells which triple is smaller at the first difference. |
| Versions.ComparesParts | admin-dashboard/src/pages/AppExperienceOverview.tsx:157-170 | Versions made of any parts and suffix compare by the numbers of their first three parts, left to right, with zero for a missing part. |
| Versions.EveryVersionIsMadeOfParts | admin-dashboard/src/pages/AppExperienceOverview.tsx:158-162 | Every version text is made of parts and a suffix, so that law covers all versions. |
| Versions.ComparesTriples | admin-dashboard/src/pages/AppExperienceOverview.tsx:157-170 | Three plain parts on either side, with or without suffixes: the lexicographic comparison of their numbers. |
| Versions.SupportsAppVersion | admin-dashboard/src/pages/AppExperienceOverview.tsx:172-176 | Decides support, with an empty version always supported and an empty maximum unbounded. |
| Versions.SignFlips | admin-dashboard/src/pages/AppExperienceOverview.tsx:157-170 | Swapping the arguments flips the sign. |
| Versions.NotAfterIsTransitive | admin-dashboard/src/pages/AppExperienceOverview.tsx:157-170 | The comparison is a total preorder, strict when a step is strict. |
| Versions.SuffixesAreIgnored | admin-dashboard/src/pages/AppExperienceOverview.tsx:158-162 | Appending a suffix that starts with plus or minus never affects a comparison. |
| Versions.AgreesWithSemVerIff | admin-dashboard/src/pages/AppExperienceOverview.tsx:157-170 | Comparison has the sign of section 11 of SemVer 2.0.0 iff the triples differ or the pre-releases rank equal. |
| Versions.AgreesWithSemVerOnWellFormedIff | admin-dashboard/src/pages/AppExperienceOverview.tsx:157-170 | On well-formed pre-releases that is: iff the triples differ or the pre-release texts are equal. |
| Versions.PreReleaseIsTakenForItsRelease | admin-dashboard/src/pages/AppExperienceOverview.tsx:157-176 | Every pre-release of a plain version ranks below it, yet compares as equal and passes it as a minimum. |
| Versions.BetaPassesItsReleaseAsMinimum | admin-dashboard/src/pages/AppExperienceOverview.tsx:172-176 | The instance 2.0.0-beta against the minimum 2.0.0. |
| Versions.SupportIsConvex | admin-dashboard/src/pages/AppExperienceOverview.tsx:172-176 | The supported non-empty versions form an interval. |
| Manifests.StatusMeaning | admin-dashboard/src/pages/AppExperienceOverview.tsx:198-221 | When each of the ten statuses is shown, in the manifest's own fields and independently of the order of the tests. |
| Manifests.LifecycleNeverGoesBack | admin-dashboard/src/pages/AppExperienceOverview.tsx:198-221 | Phases only move forward in time; EXPIRED is final and SCHEDULED never returns. |
| Manifests.StatusChangesAtMostTwice | admin-dashboard/src/pages/AppExperienceOverview.tsx:198-221 | Over any timeline a manifest's status changes at most twice. |
| Manifests.ExpiryOnlyGrows | admin-dashboard/src/pages/AppExperienceOverview.tsx:444-452 | Over time expired manifests only get more and scheduled ones only fewer. |
| Manifests.TallyStates | admin-dashboard/src/pages/AppExperienceOverview.tsx:444-452 | The tally counts each status that occurs and sums to the number of manifests. |
| Manifests.ScopeFilter | admin-dashboard/src/pages/AppExperienceOverview.tsx:437-480 | The version filter and its complement partition the fetched manifests in order. |
| Manifests.Overview | admin-dashboard/src/pages/AppExperienceOverview.tsx:435-480 | Displayed statuses plus unsupported manifests account for everything fetched. |
| Percentiles.PercentileExistsIff | scripts/mobile/verify_performance_report.py:14-17 | The rank is inside the samples iff there are samples and the percentile is at most 100. |
| Percentiles.PercentileWithinIff | scripts/mobile/verify_performance_report.py:14-17 | A percentile is within a limit iff at most n minus rank samples exceed it. |
| Percentiles.P95WithinIff | scripts/mobile/verify_performance_report.py:52-54 | The 95th percentile is within a limit iff at most n/20 samples, rounded down, exceed it. |
| Percentiles.PercentileIsASample | scripts/mobile/verify_performance_report.py:14-17 | The percentile is one of the samples. |
| Percentiles.PercentileIgnoresOrder | scripts/mobile/verify_performance_report.py:15 | It is invariant under permutation. |
| Percentiles.PercentileIsMonotone | scripts/mobile/verify_performance_report.py:14-17 | It is monotone in the samples and in the percentile. |
| PerformanceGate.CheckMeasurement | scripts/mobile/verify_performance_report.py:28-63 | Reports exactly the findings that apply; none iff at most one sample in twenty exceeds each limit and the rest of the budget holds. |
| PerformanceGate.WithinBudgetByName | scripts/mobile/verify_performance_report.py:28-63 | The budget with every metric and limit key named: at least 20 numeric samples, and the number of them above the limit is at most a twentieth. |
| PerformanceGate.Verify | scripts/mobile/verify_performance_report.py:74-102 | Passes iff inputs are readable, measurements and required triples correspond one to one, and all are within budget. |
| PerformanceGate.ReadableByName | scripts/mobile/verify_performance_report.py:74-83 | Inputs are readable iff versions agree, there are measurements, and each of the five named metrics uses p95. |
| PerformanceGate.RequiredIff | scripts/mobile/verify_performance_report.py:84 | The required triples are every surface of every app on every required tier. |
| PerformanceGate.MeasuredOfConcat | scripts/mobile/verify_performance_report.py:85-89 | The measured objects are the entries that are objects, in order. |
| PerformanceGate.CoverageIsOneToOne | scripts/mobile/verify_performance_report.py:84-94 | No duplicate and nothing missing, together with budgets, is one-to-one correspondence. |
| Text.SplitIff | backend/routing-service/main.go:133-147 | The pieces of a split are the only separator-free texts that join to the text again. |
| Text.TrimIff | scripts/tasks/validate_task_evidence.py:121 | The trimmed text is the one part with clean ends that only white space surrounds. |
| Text.BreakEndsLine | scripts/tasks/validate_task_evidence.py:129 | A break of any kind ends a line, and a carriage return with a line feed is one break. |
| Text.LinesOfConcat | scripts/tasks/validate_task_evidence.py:92 | Lines of a text appended after a line feed are appended lines. |
| Frontmatter.ParseFrontmatter | scripts/tasks/validate_task_evidence.py:127-157 | The strict parser's loop computes its specification, with the fault of the first bad line. |
| Frontmatter.ReadFrontmatter | scripts/tasks/check_implementation_references.py:34-48 | The lenient parser's loop computes its specification. |
| Frontmatter.DelimiterIff | scripts/tasks/validate_task_evidence.py:131-136 | A delimiter is three dashes with white space around them. |
| Frontmatter.NoteIff | scripts/tasks/validate_task_evidence.py:144-146 | A skipped line is white space only, or a hash after white space. |
| Frontmatter.LenientFieldText | scripts/tasks/check_implementation_references.py:44 | The lenient parser reads every line with a colon that is no comment. |
| Frontmatter.KeyAndValueOf | scripts/tasks/validate_task_evidence.py:149-150 | The key ends at the first colon and is read in lower case; the value is the rest. |
| Frontmatter.QuotedValue | scripts/tasks/validate_task_evidence.py:120-124 | One pair of matching quotes comes off, with the white space on both sides of each. |
| Frontmatter.UnquotedEnds | scripts/tasks/check_implementation_references.py:47 | The lenient removal leaves the one part without quotes at its ends that only quotes surround. |
| Frontmatter.StrictAcceptsIff | scripts/tasks/validate_task_evidence.py:131-153 | Accepted iff delimited, and every line before the first closing delimiter is a note or a field with a key. |
| Frontmatter.FirstFaultIsFirst | scripts/tasks/validate_task_evidence.py:143-153 | The reported fault is that of the first faulty line. |
| Frontmatter.BothValuesOf | scripts/tasks/validate_task_evidence.py:149-154 | Both parsers take a value from the last line with the key. |
| Frontmatter.ValuesAgreeIff | scripts/tasks/check_implementation_references.py:47 | The two ways of removing quotes agree on a value iff its quotes are unambiguous. |
| Frontmatter.ParsersAgree | scripts/tasks/validate_task_evidence.py:120-157 | On accepted texts the key sets are equal, and each value iff its quotes are unambiguous. |
| EvidenceText.WrittenIsReadBack | scripts/tasks/validate_task_evidence.py:127-157 | A file written from plain fields and lines is read back by both parsers: the last value of each key, each with its own quote removal, and the body. |
| EvidenceText.AcceptedReadsAsWritten | scripts/tasks/validate_task_evidence.py:127-157 | Every file the strict parser accepts reads, for both parsers, as a written one. |
| MasterTasks.TaskHeadingIff | scripts/tasks/validate_task_evidence.py:33 | The matcher accepts a line iff it is `##`, white space, a task id and a word end. |
| MasterTasks.TaskIdIff | scripts/tasks/validate_task_evidence.py:33 | A task id is a prefix of capitals and digits that starts with a capital, four digits, and three digits, joined by dashes. |
| MasterTasks.CheckboxIff | scripts/tasks/validate_task_evidence.py:34 | The matcher accepts a line iff it is a dash, white space, a mark in brackets, and white space. |
| MasterTasks.KindOfLine | scripts/tasks/validate_task_evidence.py:93-115 | The kind of a line read off its text: heading, break, ticked box (mark x or X), unticked box (a blank mark). |
| MasterTasks.ParseMaster | scripts/tasks/validate_task_evidence.py:88-117 | The scan over shared mutable task objects agrees with the scan over values. |
| MasterTasks.ScanIsSectional | scripts/tasks/validate_task_evidence.py:92-115 | The scan succeeds iff headings are distinct, and each task counts the boxes it owns. |
| MasterTasks.MasterIsSectional | scripts/tasks/validate_task_evidence.py:88-117 | Checked is at most total, totals sum to the owned boxes, and the error is the first repeated heading. |
| MasterTasks.ParseCountsBoxLines | scripts/tasks/validate_task_evidence.py:88-117 | Parsing succeeds iff no two headings name one task, and each task counts the ticked and the unticked checkbox lines of its section, by number of lines. |
| MasterTasks.RejectedAtFirstRepeat | scripts/tasks/validate_task_evidence.py:96-97 | A rejected file names a task whose heading is repeated, at the first line that repeats any. |
| MasterTasks.ParseOfConcat | scripts/tasks/validate_task_evidence.py:92-117 | A file cut before a section parses iff both parts parse and share no task; the result is their union. |
| MasterTasks.ParseOfConcatenatedTexts | scripts/tasks/validate_task_evidence.py:88-117 | The same for texts. |
| EvidenceGate.Gate.ValidateEvidence | scripts/tasks/validate_task_evidence.py:168-325 | Adds no error iff the evidence is acceptable for the task, and drops none. |
| EvidenceGate.AcceptableByName | scripts/tasks/validate_task_evidence.py:168-321 | Acceptance with every field, allowed value, empty sentinel and heading named. |
| EvidenceGate.Gate.CheckPartial | scripts/tasks/validate_task_evidence.py:237-247 | Partial evidence must name local work and a condition. |
| EvidenceGate.Gate.CheckBlocked | scripts/tasks/validate_task_evidence.py:253-269 | Blocked evidence has no local work and names blocker, way out and missing proof. |
| EvidenceGate.Gate.CheckComplete | scripts/tasks/validate_task_evidence.py:274-321 | Complete evidence passes both reality gates and everything applicable, with nothing open. |
| EvidenceGate.RunGate | scripts/tasks/validate_task_evidence.py:337-388 | Exit 0 iff every touched task has acceptable evidence; 2 iff an input is missing or unreadable. |
| EvidenceGate.FieldsSettleTheStatus | scripts/tasks/validate_task_evidence.py:232-321 | In accepted evidence the other fields determine which of the three statuses it has. |
| EvidenceGate.GateIsCompositional | scripts/tasks/validate_task_evidence.py:345-388 | The gate passes on a master file cut before a section iff it passes on both parts, sharing no task. |
| EvidenceGate.CompleteEvidenceIsScannedIff | scripts/tasks/check_implementation_references.py:82 | Evidence accepted as complete is picked up by the reference check iff its status has unambiguous quotes. |
| EvidenceGate.ScannedIffParsersAgreeOnStatus | scripts/tasks/check_implementation_references.py:82 | Evidence accepted as complete is picked up by the reference check iff both parsers read the same status. |
| SampleEvidence.SampleIsAcceptable | scripts/tasks/validate_task_evidence.py:168-325 | A whole evidence text with any status value that reads as COMPLETE proves a completed task; the reference check scans it iff the quotes of that value are unambiguous. |
| SampleEvidence.CompletionCanBeScannedOrHidden | scripts/tasks/check_implementation_references.py:82 | For every completed task there is an acceptable evidence text that the reference check scans, and one that it passes over. |
| Rollout.PacketValidator.CheckStage | scripts/mobile/validate_staged_rollout.py:91-102 | No error iff the approved current stage and the target are a named pair: none to internal, to alpha, to beta, to percentage. |
| Rollout.PacketValidator.CheckPercentages | scripts/mobile/validate_staged_rollout.py:104-114 | No error iff the percentage grows within 100 and the cap of the first policy row of the target stage. |
| Rollout.PacketValidator.CheckGuardrails | scripts/mobile/validate_staged_rollout.py:142-162 | No error iff the four named metrics lie in [0, 1], three at or above their minimum and the hang rate at or below its maximum. |
| Rollout.GuardrailsByName | scripts/mobile/validate_staged_rollout.py:143-148 | The gate's table of metrics, threshold keys and directions says what the named rules say. |
| Rollout.ValidatePacket | scripts/mobile/validate_staged_rollout.py:52-164 | No errors iff the whole policy accepts the packet. |
| Rollout.ChainClimbs | scripts/mobile/validate_staged_rollout.py:91-114 | In a chain stages advance one by one while percentages strictly grow within caps. |
| Rollout.ChainsAreShort | scripts/mobile/validate_staged_rollout.py:22 | At most four promotions occur, four of them visit all stages, and the last stage is terminal. |
| Rollout.CanContinueIff | scripts/mobile/validate_staged_rollout.py:91-114 | An accepted promotion can be followed by another iff it is below the last stage and the next cap leaves room to grow. |
| Rollout.ImprovementKeepsAcceptance | scripts/mobile/validate_staged_rollout.py:142-162 | Raising the three success shares and lowering the hang rate, within range, never revokes acceptance. |
| Rollout.OmissionNeverHelps | scripts/mobile/validate_staged_rollout.py:52-164 | Leaving fields out of a release or its metrics never turns a rejection into an acceptance. |
| Traceparent.IsAllZeroHex | backend/routing-service/main.go:92-99 | The loop decides whether every digit is zero. |
| Traceparent.HexReadsBack | backend/routing-service/main.go:84-90 | Reading the hex text two digits at a time gives the bytes back. |
| Traceparent.CapturesAreParts | backend/routing-service/main.go:32 | The pattern's captures are the parts of the standard's form. |
| Traceparent.SanitizeAcceptsIff | backend/routing-service/main.go:109-119 | Accepts exactly the headers that are in the standard's form once trimmed, and returns them trimmed. |
| Traceparent.AcceptedHeaderRoundTrip | backend/routing-service/main.go:133-147 | Splitting an accepted header gives usable ids, rejoining gives the header, sanitizing again changes nothing. |
| Traceparent.GeneratedPasses | backend/routing-service/main.go:121-131 | A generated header passes unchanged and carries its ids, even when the random source fails. |
| Traceparent.ContextIsStandard | backend/routing-service/internal/observability/tracing.go:97-109 | The header written for a valid span context is in the standard form with the ids that are returned beside it. |
| Traceparent.EveryRequestIsTraced | backend/routing-service/main.go:160-168 | Every request gets a header that passes and its own usable ids, from a valid span context, else the incoming header, else fresh random bytes, even when the random source fails. |
| Traceparent.SourceOfTrace | backend/routing-service/main.go:160-168 | The ids are the bytes of a valid span context; else an incoming header in the standard's form is used trimmed; else the ids are the drawn bytes, or all ones when these are zero or missing. |
| Traceparent.GeneratedHeadersAreDistinct | backend/routing-service/main.go:84-90 | Generated headers with nonzero ids are equal iff all their random bytes are. |

## Left out

- Loading JSON and text files, command lines, clocks, printing and the wording of messages: input and output. Errors are tags.
- `run_drill` and the tabletop drills: fixed scenarios over constants.
- React views, queries, sockets, map rendering and themes: user interface.
- Warnings of the evidence gate: they do not affect the exit status.
- Regions.ValidateCatalog: values have the types the contract file uses; a market list given as a text, or a priority that is not an integer, is not modelled.
- Routing.FindRegionIsLookup: an explicit JSON null as a region id is not representable; reading it does not raise, whereas the model's absent id always faults.
- Replay.ReplayEvents: every event carries both fields, as its type says; the lookup error for an absent field is not modelled.
- Sections.Editor.MoveSection: the start position is a position of the list, as the arrow and drag handlers pass it; JavaScript would insert an undefined entry for one beyond the list.
- Percentiles.P95WithinIff: samples and ranks are exact rationals, not binary floating point.
- PerformanceGate.Verify: app, surface and tier names are texts and limits are numbers; report entries with names of other types are not modelled.
- MasterTasks.TaskHeadingIff: digits and word characters of the heading pattern are the ASCII ones.
- Frontmatter.ParsersAgree: upper and lower case are ASCII; both parsers use the same conversion.
- Rollout.ValidatePacket: the repository's own policy file has numbers where numbers belong; the packet is untyped.
- Versions.CompareVersions: the conversion of a version part to a number is a parameter with finite values.
- Manifests.LifecycleNeverGoesBack: start and end are valid instants; comparisons with an invalid date are not modelled.
- The request-id, redaction and server parts of the routing service: unrelated to the header.
