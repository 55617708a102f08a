# Proofs about the bpfix benchmark tools and reference repairs

This project models the stateful parts of the bpfix benchmark: the oracles that judge a repaired
eBPF program from its verifier log, the runner that asks a model for repairs, the auditor that
checks the runner's summaries, the sampler of the diagnostics evaluation, and the state machines
of the reference repairs themselves. `dafny verify dfyconfig.toml` checks all of it.

## Layout

| modules | subject |
|---|---|
| `ControlFlow`, `SearchLaws` | worklist searches over the instructions of a verifier log, against path existence |
| `MmapRing`, `MmapHistory`, `MmapCapacity`, `MmapPackets` | the four-slot ring beside the mmap table, over whole runs, and when the capacities matter |
| `TokenUsage`, `RepairCost`, `OracleStage`, `StageLaws`, `OpensnoopReport`, `RepairRun`, `RepairTrace`, `CostAudit`, `AuditLaws`, `RejectedRows` | the repair loop, its costs and checkpoints, and the audit of both |
| `LogLines`, `RingbufScan`, `RegisterScan`, `PacketScan`, `ScanLaws` | the log scanners, against specifications over line numbers, and what they read off a line |
| `SchedRuntime`, `SchedExact`, `WriteAggregate`, `PathAggregate`, `AllocStats`, `CpuObserver`, `CpuWatch` | accounting programs and what their runs conserve |
| `Sampler`, `SamplerProperties` | the stratified round-robin sample |
| `Bytes`, `Checksum`, `IpOptions` | the pseudo-header sum and the IPv4 option walk with the packet builders they must undo |
| `Wrappers`, `FiniteSets`, `MapSum`, `BpfMap` | shared vocabulary: options, finite sets, sums over maps, maps with a capacity and machine integers |

A BPF hash map is a finite map with a capacity; an update is refused only for an absent key in a
full map. 64-bit and 32-bit arithmetic wraps explicitly (`Wrap64`, `Wrap32`). What a program
changes in place is a class whose methods are proved against a function of the old state; runs are
sequences of events, packets or requests over that function. The language model, source extraction,
the oracle and the clock of a repair run are arbitrary functions of the case, the attempt number
and what they are given (`World`), which is more general than functions of the case and the
prompt.

## Where the code falls short

- The auditor does not allow the stages `oracle` and `oracle_parse`, which the runner's classifier
  returns. A runner row is rejected exactly then (`RunnerRowRejectedIff`), and the stage is reached:
  the opensnoop oracle reports one kind of failure under `load_log_semantics`, which the classifier
  never reads (`RowRejectedIffUnclassified`, `OpensnoopRowRejectedIff`,
  `CleanCostsRejectedStage`).
- The observer keeps its slots in a per-CPU map, so the slot an event reads has counted and recorded
  events of its own CPU only. From zeroed slots a report never names more than one CPU, every
  configuration takes that for a limit on CPUs, and saturation is never reported
  (`OnlyLimitedIsReported`); from others some report says otherwise iff a first mask holds too many
  CPUs (`AlwaysLimitedIff`).
- Scheduler stamps are never removed, so a pid that is left twice without being switched in is
  charged twice. The recorded running times are right after every switch iff every switch leaves a
  pid that was stamped when the previous switch happened, or is passed over while no time has passed
  (`AlwaysExactIff`, `ChainedRunIsExact`, `UnchainedOvercounts`).
- Five pids can fill the mmap table; an update is refused, and the table falls behind, iff more than
  sixteen mappings are live (`AgreesIffAlwaysFits`, `FivePidsCanBeRefused`).
- The detail of a descriptor keeps only its sign and last digit, so writes to different descriptors
  of a process are counted in one entry (`SharedDetailIff`, `TwoWritesOneEntryIff`).

## Model

| member | source | states |
|---|---|---|
| `ControlFlow.NextPc` | bpfix-bench/cases/rs_bpftime_opensnoop_ringbuf_filter_ref_001/test.py:168-172 | the least printed pc above the given one, absent exactly when there is none |
| `ControlFlow.FilteredSuccessorReachesCleanup` | bpfix-bench/cases/rs_bpftime_opensnoop_ringbuf_filter_ref_001/test.py:197-222 | true iff some path from the start meets no submit call, ends at a delete call and, when required, has met a discard call by its end; terminates on every instruction map, cyclic or leaving the map |
| `ControlFlow.FilteredRetPathReachesCleanup` | bpfix-bench/cases/rs_bpftime_opensnoop_ringbuf_filter_ref_001/test.py:225-249 | true iff all call sets and the graph are nonempty and some successor of some filter branch has such a path, the discard being required iff a reserve call is printed before that branch |
| `ControlFlow.Cleanup.SearchStep` | bpfix-bench/cases/rs_bpftime_opensnoop_ringbuf_filter_ref_001/test.py:204-221 | expanding one product state keeps the search invariant: pending states are reachable, visited ones are not accepted, and visited plus pending are closed under steps |
| `ControlFlow.Cleanup.ClosedHoldsStates` | bpfix-bench/cases/rs_bpftime_opensnoop_ringbuf_filter_ref_001/test.py:197-222 | a closed set of product states that holds the start holds every state of every clean path, with the right discard bit |
| `ControlFlow.RequiredCleanupIsTwoSearches` | bpfix-bench/cases/rs_bpftime_opensnoop_ringbuf_filter_ref_001/test.py:197-222 | with a required discard, the product search answers two plain searches in sequence through some discard call; both directions |
| `ControlFlow.UnrequiredCleanupIsPlainSearch` | bpfix-bench/cases/rs_bpftime_opensnoop_ringbuf_filter_ref_001/test.py:197-222 | without a required discard, the product search answers one plain search |
| `ControlFlow.ReachesTargetBeforeForbidden` | bpfix-bench/cases/rs_tutorial_dynptr_tc_ref_leak_001/test.py:168-186 | true iff some path from the start ends in a target and has no forbidden node before its end (a target that is also forbidden counts); terminates on every instruction map |
| `ControlFlow.Search.SearchStep` | bpfix-bench/cases/rs_tutorial_dynptr_tc_ref_leak_001/test.py:175-186 | expanding one allowed node, or dropping a forbidden or missing one, keeps the search invariant |
| `ControlFlow.Search.ClosedHoldsWalk` | bpfix-bench/cases/rs_tutorial_dynptr_tc_ref_leak_001/test.py:168-186 | a closed set that holds the start holds every node of every allowed walk |
| `ControlFlow.FiniteReach` | bpfix-bench/cases/rs_tutorial_dynptr_tc_ref_leak_001/test.py:110-120 | finitely many pcs are ever pushed, whatever the jumps |
| `SearchLaws.SearchEnds` | bpfix-bench/cases/rs_tutorial_dynptr_tc_ref_leak_001/test.py:168-186 | a target is found at once; nothing is found past a forbidden, a missing or an exit instruction |
| `SearchLaws.SearchAtGoto` | bpfix-bench/cases/rs_tutorial_dynptr_tc_ref_leak_001/test.py:105-120 | from an unconditional jump with offset k the search finds a target iff it does from pc + k + 1, and never without an offset |
| `SearchLaws.SearchAtBranch` | bpfix-bench/cases/rs_tutorial_dynptr_tc_ref_leak_001/test.py:105-120 | from a conditional jump: iff it does from the least pc above or from pc + k + 1 |
| `SearchLaws.SearchAtStraight` | bpfix-bench/cases/rs_tutorial_dynptr_tc_ref_leak_001/test.py:94-120 | from any other instruction: iff it does from the least pc above |
| `SearchLaws.CleanupEnds` | bpfix-bench/cases/rs_bpftime_opensnoop_ringbuf_filter_ref_001/test.py:204-221 | a delete call ends the product search iff no discard is due, itself counted; nothing is found past a submit call, a missing or an exit instruction |
| `SearchLaws.CleanupAtGoto` | bpfix-bench/cases/rs_bpftime_opensnoop_ringbuf_filter_ref_001/test.py:175-222 | the law of unconditional jumps for the product search, with the discard bit carried along |
| `SearchLaws.CleanupAtBranch` | bpfix-bench/cases/rs_bpftime_opensnoop_ringbuf_filter_ref_001/test.py:175-222 | the law of conditional jumps for the product search |
| `SearchLaws.CleanupAtStraight` | bpfix-bench/cases/rs_bpftime_opensnoop_ringbuf_filter_ref_001/test.py:168-222 | the law of all other instructions for the product search |
| `SearchLaws.FilterAtBranch` | bpfix-bench/cases/rs_bpftime_opensnoop_ringbuf_filter_ref_001/test.py:225-249 | at a ret filter both ways are searched, with a discard due iff a reserve call is printed strictly before it |
| `MmapRing.RangeEnd` | bpfix-bench/cases/rs_actplane_mmap_pending_merge_001/fixed.bpf.c:107-114 | the exact end of a mapping, saturated when the 64-bit sum wraps |
| `MmapRing.RingIndex.Remember` | bpfix-bench/cases/rs_actplane_mmap_pending_merge_001/fixed.bpf.c:128-148 | the in-place ring update: duplicates cleared, the slot taken over, the evicted start returned; the evicted start is never the stored one, so that guard cannot fire |
| `MmapRing.MmapTables.IndexRemember` | bpfix-bench/cases/rs_actplane_mmap_pending_merge_001/fixed.bpf.c:116-149 | the index map after one remembered start, and what is evicted |
| `MmapRing.MmapTables.StoreMmapRef` | bpfix-bench/cases/rs_actplane_mmap_pending_merge_001/fixed.bpf.c:151-179 | both maps after one store: nothing for an empty request, otherwise eviction before insertion |
| `MmapRing.MmapTables.Xdp` | bpfix-bench/cases/rs_actplane_mmap_pending_merge_001/fixed.bpf.c:181-221 | all four maps and the verdict after one packet |
| `MmapPackets.PendingIsConsumed` | bpfix-bench/cases/rs_actplane_mmap_pending_merge_001/fixed.bpf.c:200-221 | after a packet of five bytes or more its thread has no pending request, even if the file is unknown; all other requests and the files are unchanged |
| `MmapPackets.AsksIff` | bpfix-bench/cases/rs_actplane_mmap_pending_merge_001/fixed.bpf.c:193-221 | a packet is dropped iff it is complete and its thread has a request for a known file |
| `MmapPackets.NothingPending` | bpfix-bench/cases/rs_actplane_mmap_pending_merge_001/fixed.bpf.c:193-203 | a short packet, or one of a thread without a request, passes and changes no map |
| `MmapPackets.NothingStored` | bpfix-bench/cases/rs_actplane_mmap_pending_merge_001/fixed.bpf.c:151-160 | a request for an unknown file or of length zero leaves ring and table as they are |
| `MmapPackets.RecordedFromPacket` | bpfix-bench/cases/rs_actplane_mmap_pending_merge_001/fixed.bpf.c:151-221 | what a store records, from the bytes: pid, page address, saturated end, protection, flags, path and file id, and the ring slot that takes the address |
| `MmapPackets.SecondPacketPasses` | bpfix-bench/cases/rs_actplane_mmap_pending_merge_001/fixed.bpf.c:200-221 | over a run without refills a second packet of a thread passes and leaves all maps as they are |
| `MmapPackets.OneStoreForEachRequest` | bpfix-bench/cases/rs_actplane_mmap_pending_merge_001/fixed.bpf.c:181-221 | over a run without refills a thread stores at most once, and exactly once iff it has a request and its first packet names a known file |
| `MmapHistory.EvictedIsLeaving` | bpfix-bench/cases/rs_actplane_mmap_pending_merge_001/fixed.bpf.c:128-148 | what the ring evicts is the start that leaves the last four and does not occur again in them |
| `MmapHistory.RepresentsStep` | bpfix-bench/cases/rs_actplane_mmap_pending_merge_001/fixed.bpf.c:128-148 | one store keeps slot k mod 4 equal to start number k, or 0 if that start was stored again |
| `MmapHistory.RingIsLastFour` | bpfix-bench/cases/rs_actplane_mmap_pending_merge_001/fixed.bpf.c:84-97 | the occupied slots are distinct and are exactly the last four starts |
| `MmapHistory.AgreesStep` | bpfix-bench/cases/rs_actplane_mmap_pending_merge_001/fixed.bpf.c:151-179 | a store without a refused update keeps ring, table and history in agreement |
| `MmapHistory.RingAndTableHoldLastFour` | bpfix-bench/cases/rs_actplane_mmap_pending_merge_001/fixed.bpf.c:116-179 | after every run without a refused update: the ring of each pid, the table keys of that pid and the last four starts are the same set, slots are distinct, and the table holds the ref stored last for each key |
| `MmapCapacity.AdmitsIffFits` | bpfix-bench/cases/rs_actplane_mmap_pending_merge_001/fixed.bpf.c:78-97 | a request is carried out without a refused update iff at most sixteen mappings are live after it; covers both maps |
| `MmapCapacity.AdmittedIffAlwaysFits` | bpfix-bench/cases/rs_actplane_mmap_pending_merge_001/fixed.bpf.c:78-97 | a run meets the main result's condition iff never more than sixteen mappings are live |
| `MmapCapacity.FourPidsNeverRefused` | bpfix-bench/cases/rs_actplane_mmap_pending_merge_001/fixed.bpf.c:163-177 | with at most four distinct pids no update is refused in any run |
| `MmapCapacity.AgreesIffAlwaysFits` | bpfix-bench/cases/rs_actplane_mmap_pending_merge_001/fixed.bpf.c:78-97 | ring and table agree with the history after every prefix of a run iff never more than sixteen mappings are live |
| `MmapCapacity.FivePidsCanBeRefused` | bpfix-bench/cases/rs_actplane_mmap_pending_merge_001/fixed.bpf.c:181-221 | the bound is tight: over seventeen packets from five pids a map update is refused, and the only mapping of the fifth pid does not get into the table |
| `MmapCapacity.PacketsRunRequests` | bpfix-bench/cases/rs_actplane_mmap_pending_merge_001/fixed.bpf.c:181-221 | any run of packets, with pending and fd maps refilled at will in between, is a run of its store requests |
| `MmapCapacity.PacketsKeepLastFour` | bpfix-bench/cases/rs_actplane_mmap_pending_merge_001/fixed.bpf.c:181-221 | over any run of packets from at most four pids the table keys of each pid are its last four starts |
| `TokenUsage.NormalizedFields` | bpfix-bench/tools/run_suite.py:553-576 | every field of a normalized usage object is well formed; it holds n iff n is the integer of the first path with a usable one, and null iff no path has one |
| `TokenUsage.NormalizedIsNullIff` | bpfix-bench/tools/run_suite.py:553-576 | nothing is recorded iff the usage is no object or no path of any field has a usable integer |
| `TokenUsage.FieldsOfReply` | bpfix-bench/tools/run_suite.py:553-576 | which keys of the reply each of the five fields is read from, in which order |
| `RepairCost.AggregateAttemptCost` | bpfix-bench/tools/run_suite.py:579-610 | call count, per-field coverage, per-field totals (unknown unless every call reported the field) and the three wall times |
| `RepairCost.CostAppends` | bpfix-bench/tools/run_suite.py:579-610 | cost is a homomorphism over concatenation of attempts; an unknown token total absorbs |
| `RepairCost.CostOfOne` | bpfix-bench/tools/run_suite.py:579-610 | call count and the three wall times of one attempt, from its recorded readings |
| `RepairCost.TokensOfOne` | bpfix-bench/tools/run_suite.py:579-610 | coverage and total of a token field for one attempt: known if reported, absorbing if a call does not report it |
| `RepairCost.CostOfNone` | bpfix-bench/tools/run_suite.py:579-610 | the cost of no attempts: zero in every component, every token total known |
| `RepairCost.SummaryCostIsSumOfRowCosts` | bpfix-bench/tools/run_suite.py:1211-1218 | the cost of the summary is the combined cost of its rows |
| `RepairCost.RepairPolicyCheckpoints` | bpfix-bench/tools/run_suite.py:613-646 | one checkpoint per limit up to the given one, or up to the longest trajectory, each with the passed count and cost of the selected attempts |
| `RepairCost.PassedCountIs` | bpfix-bench/tools/run_suite.py:613-646 | the passed count of a checkpoint is the number of rows with a pass among their first attempts up to the limit |
| `RepairCost.CheckpointsGrow` | bpfix-bench/tools/run_suite.py:613-646 | a larger limit never lowers the passed count or the number of model calls |
| `RepairCost.LargeLimitSelectsAll` | bpfix-bench/tools/run_suite.py:613-646 | a limit no trajectory exceeds selects all attempts, so the last checkpoint has the cost of the summary |
| `RepairRun.RepairCase` | bpfix-bench/tools/run_suite.py:1023-1184 | the loop with its exits and retry contexts yields the recursive trajectory, for every model, extraction and oracle function |
| `RepairRun.TrajectoryShape` | bpfix-bench/tools/run_suite.py:1026-1164 | attempts are numbered from the first in order, only the last can pass, and without a pass the limit is used up |
| `RepairRun.FailedCallKeepsPrompt` | bpfix-bench/tools/run_suite.py:528-531 | the first prompt is the base prompt, followed, if a context is given, by the header and the context, and a failed model call is retried with the same prompt |
| `RepairTrace.NextPrompt` | bpfix-bench/tools/run_suite.py:1026-1164 | over every trajectory: after an unusable reply the next prompt is the same; after a failed extraction or oracle run it is the base prompt, the header, the context of that failure and a line break |
| `RepairTrace.FirstPrompt` | bpfix-bench/tools/run_suite.py:1023-1031 | the first attempt is made with the base prompt |
| `RepairTrace.AttemptRecorded` | bpfix-bench/tools/run_suite.py:1026-1164 | number, status, stage, usage and times recorded of every attempt, from reply, extraction and oracle run |
| `RepairTrace.AttemptAt` | bpfix-bench/tools/run_suite.py:1026-1164 | attempt number i + j of a trajectory is one attempt with the context the attempts before it leave |
| `RepairRun.TrajectoryPrefix` | bpfix-bench/tools/run_suite.py:1023-1164 | the attempts made under a limit are the first attempts made under any larger limit |
| `RepairRun.RunSuite` | bpfix-bench/tools/run_suite.py:1207-1226 | the summary of a run: total, passed, cost, checkpoints and rows |
| `RepairRun.RowOfCase` | bpfix-bench/tools/run_suite.py:1166-1184 | one row for every case in their order: its id, its attempts and their cost, and status and stage of the last |
| `RepairRun.SummaryCounts` | bpfix-bench/tools/run_suite.py:1207-1211 | total and passed count of the summary are the number of rows and of those that passed |
| `RepairRun.CheckpointIsShorterRun` | bpfix-bench/tools/run_suite.py:613-646 | checkpoint k of a run with limit n has the total, passed count and cost of a real run with limit k |
| `StageLaws.StageIffs` | bpfix-bench/tools/run_suite.py:786-824 | the exact condition of each stage of a failed run in terms of the report: the first section that records a failure decides, and then the first functional test that fails, in setup or in outcome |
| `StageLaws.NoObject` | bpfix-bench/tools/run_suite.py:786-796 | a failed run that printed no object ends in oracle_parse |
| `OracleStage.StageRange` | bpfix-bench/tools/run_suite.py:786-824 | the stages the classifier can return, and that only a zero return code is a pass |
| `OracleStage.UnclassifiedIff` | bpfix-bench/tools/run_suite.py:786-824 | a failure stays unclassified iff the output is no JSON object or no section the classifier reads records a failure |
| `OpensnoopReport.StageOfReport` | bpfix-bench/cases/rs_bpftime_opensnoop_ringbuf_filter_ref_001/test.py:269-325 | for every outcome of the opensnoop oracle, the stage the runner makes of its report: compile, load and source failures are classified, a failed verifier-log check alone ends in the generic oracle stage |
| `CostAudit.AuditCostMetrics` | bpfix-bench/tools/audit_results.py:221-351 | no finding iff the summary is consistent: attempts numbered and well formed, stopped at a pass, limit used up, rows repeating their last attempt, and every cost and checkpoint equal to its recomputation |
| `CostAudit.AuditRow` | bpfix-bench/tools/audit_results.py:250-330 | no finding for a row iff the row is consistent under the declared limit |
| `CostAudit.AuditStage` | bpfix-bench/tools/audit_results.py:430-467 | no finding for a stage iff status and stage are allowed and fit together |
| `CostAudit.StageTable` | bpfix-bench/tools/audit_results.py:17-28 | which stages may stand beside which status, and which rows may go without a stage |
| `CostAudit.AuditDetermines` | bpfix-bench/tools/audit_results.py:221-351 | two clean summaries that record the same attempts under the same limit agree in status, stage and cost of each row, in their cost and in all checkpoints |
| `AuditLaws.ChangedAttempt` | bpfix-bench/tools/audit_results.py:264-303 | which changes to number, usage or times of a clean attempt leave it clean, for every value |
| `AuditLaws.ChangedRow` | bpfix-bench/tools/audit_results.py:250-330 | a clean row with another status, stage or cost is not clean |
| `AuditLaws.CannotBeExtended` | bpfix-bench/tools/audit_results.py:305-318 | under a declared limit no attempt can be added to a clean row |
| `AuditLaws.CannotBeShortened` | bpfix-bench/tools/audit_results.py:305-318 | nor can its last attempts be taken away |
| `AuditLaws.OnlyTheLastPassed` | bpfix-bench/tools/audit_results.py:264-308 | in a clean row attempts are numbered from one and only the last can have passed |
| `AuditLaws.NoneIsNotEnough` | bpfix-bench/tools/audit_results.py:259-263 | a row with an empty list of attempts is never clean |
| `AuditLaws.RowsAreClean` | bpfix-bench/tools/audit_results.py:250-330 | a clean summary has clean rows only, under its declared limit |
| `AuditLaws.FiguresComeTogether` | bpfix-bench/tools/audit_results.py:221-255 | cost and checkpoints of a clean summary are both there or both missing, and required metrics need both and a limit |
| `CostAudit.RunnerSummaryIsClean` | bpfix-bench/tools/audit_results.py:221-351 | every summary the model-backed runner can produce is consistent, whether or not cost metrics are required |
| `CostAudit.RunnerRowRejectedIff` | bpfix-bench/tools/audit_results.py:17-28 | the stage checks reject a runner row exactly when its final stage is oracle or oracle_parse |
| `RejectedRows.RowRejectedIffUnclassified` | bpfix-bench/tools/run_suite.py:1109-1164 | for every model, extraction and oracle: the stage checks reject the row of a case iff its last attempt reached the oracle, and that run failed with an output that is no JSON object or records no failure the classifier reads |
| `RejectedRows.OpensnoopRowRejectedIff` | bpfix-bench/cases/rs_bpftime_opensnoop_ringbuf_filter_ref_001/test.py:269-325 | with the opensnoop oracle: iff everything passed but some check of the verifier log |
| `RejectedRows.CleanCostsRejectedStage` | bpfix-bench/tools/audit_results.py:455-467 | under every limit there is such a row in a summary with clean costs |
| `RingbufScan.RingbufWrittenRefsBeforeHelper` | bpfix-bench/tools/bpf_case.py:356-404 | true iff the helper is called in the trace and at each call its first argument is a record to which a wanted value was stored since the last blank line, branch header or trace start |
| `RingbufScan.RingbufRefsWrittenWithU32Value` | bpfix-bench/tools/bpf_case.py:407-434 | exactly the records some line of the trace stores the value to |
| `RingbufScan.SubmittedRingbufRefs` | bpfix-bench/tools/bpf_case.py:437-464 | exactly the records that are the first argument of some call of the helper |
| `RingbufScan.PathSensitiveImpliesIntersection` | bpfix-bench/tools/bpf_case.py:356-464 | on every log, if the path-sensitive scan accepts a set of values, some record was written with one of them and is passed to the helper |
| `ScanLaws.StoredRefsIff` | bpfix-bench/tools/bpf_case.py:394-404 | the records a line stores to, from its fields: a 32-bit store at the offset, through a base register said to point to the record, of a source register said to hold a wanted number |
| `ScanLaws.WrittenWithIff` | bpfix-bench/tools/bpf_case.py:407-434 | the records written with a value, as such lines of the trace |
| `ScanLaws.WrittenBeforeIff` | bpfix-bench/tools/bpf_case.py:356-404 | what counts as written at a call, as such lines since the last reset |
| `ScanLaws.StoreThenCallIff` | bpfix-bench/tools/bpf_case.py:356-404 | a store and then the call: accepted iff one record is first argument and base, the store fits, and its source holds a wanted number |
| `ScanLaws.CollectedIff` | bpfix-bench/tools/bpf_case.py:407-464 | the records collected as written and as passed from such a log |
| `ScanLaws.ResetForgets` | bpfix-bench/tools/bpf_case.py:363-382 | a blank line, branch header or trace start between store and call makes the path-sensitive scan forget the store |
| `ScanLaws.PassedAfterReset` | bpfix-bench/tools/bpf_case.py:443-460 | after a reset only the records the reset line itself mentions are passed |
| `ScanLaws.WithoutCall` | bpfix-bench/tools/bpf_case.py:356-515 | no scan finds anything in a log that does not call the helper |
| `ScanLaws.WithoutTrace` | bpfix-bench/tools/bpf_case.py:356-464 | nor in one without a trace start, the loose scan excepted |
| `ScanLaws.EveryCallCounts` | bpfix-bench/tools/bpf_case.py:386-395 | one call whose first argument was not written is enough to reject |
| `ScanLaws.EveryUseCounts` | bpfix-bench/tools/bpf_case.py:483-488 | one call with another value in the register is enough for the strict scan to reject |
| `ScanLaws.StartValue` | bpfix-bench/tools/bpf_case.py:467-515 | a value on the trace start is accepted by both register scans iff it is the one asked for |
| `RegisterScan.HelperCallsUseRegisterValue` | bpfix-bench/tools/bpf_case.py:467-488 | true iff the helper is called in the trace and the register holds the value at every call |
| `RegisterScan.HelperReachableWithRegisterValue` | bpfix-bench/tools/bpf_case.py:491-515 | true iff at some call the value is the last scalar seen for the register since a reset |
| `RegisterScan.StrictImpliesReachable` | bpfix-bench/tools/bpf_case.py:467-515 | the strict scan implies the loose one on every log, although they start, reset and update differently |
| `ScanLaws.HeaderValue` | bpfix-bench/tools/bpf_case.py:467-515 | a value on a branch header counts for the loose scan only |
| `ScanLaws.LaterState` | bpfix-bench/tools/bpf_case.py:467-515 | a later state that is no number takes the value away for the strict scan only |
| `ScanLaws.LoadIff` | bpfix-bench/tools/bpf_case.py:522-545 | a load is found iff it is at the offset and the last state of its base register before the line is a map value; its own line does not count |
| `ScanLaws.LoadAfterBreak` | bpfix-bench/tools/bpf_case.py:525-535 | a blank line makes the scan forget the map value, a branch header does not |
| `RegisterScan.LoadedMapValueU32Offset` | bpfix-bench/tools/bpf_case.py:522-545 | true iff some load at the offset has a base register whose state before the line is a map value pointer |
| `PacketScan.PacketStoreAfterHelperCall` | bpfix-bench/tools/bpf_case.py:589-639 | true iff some matching store follows a helper call through a packet pointer established since, neither forgotten nor overwritten, whose offset plus the store offset is the expected one (with a wanted value when asked) |
| `PacketScan.UpdatePacketOffsets` | bpfix-bench/tools/bpf_case.py:328-346 | after a line every register has the offset of its last mention, none if that is no packet pointer, its old one if not mentioned |
| `ScanLaws.PacketStoreIff` | bpfix-bench/tools/bpf_case.py:589-639 | a store after the call is found iff its width fits, its base register was last said to be a packet pointer that makes up the offset, and its source holds a wanted number |
| `ScanLaws.CallInvalidates` | bpfix-bench/tools/bpf_case.py:612-616 | the call invalidates every packet pointer known before it |
| `ScanLaws.StartEstablishes` | bpfix-bench/tools/bpf_case.py:604-608 | a trace start after the call establishes the packet pointers it mentions last, whatever else it says |
| `SchedRuntime.Scheduler.Xdp` | bpfix-bench/cases/rs_eunomia_energy_runtime_merge_001/fixed.bpf.c:102-155 | both maps, all statistics fields and the verdict after one switch |
| `SchedRuntime.ChainedRunIsExact` | bpfix-bench/cases/rs_eunomia_energy_runtime_merge_001/fixed.bpf.c:102-155 | over every chained run with a monotone clock and at most sixteen pids: the recorded times sum to last time minus first, each pid holds exactly its own intervals, one switch was passed over, and nothing wraps |
| `SchedRuntime.ChargedStep` | bpfix-bench/cases/rs_eunomia_energy_runtime_merge_001/fixed.bpf.c:129-146 | charging the time since the previous switch keeps the accounts exact, and the new total fits in 64 bits |
| `SchedRuntime.AllStampedIff` | bpfix-bench/cases/rs_eunomia_energy_runtime_merge_001/fixed.bpf.c:42-54 | in any run every pid switched in has a stamp iff there are at most sixteen of them |
| `SchedRuntime.UnchainedOvercounts` | bpfix-bench/cases/rs_eunomia_energy_runtime_merge_001/fixed.bpf.c:129-146 | without the chain the recorded times can exceed the time that passed |
| `SchedExact.StampsAreLastIn` | bpfix-bench/cases/rs_eunomia_energy_runtime_merge_001/fixed.bpf.c:68-83 | with at most sixteen pids, in any run, the stamp of a pid is the time it was last switched in |
| `SchedExact.ChargeNeverRefused` | bpfix-bench/cases/rs_eunomia_energy_runtime_merge_001/fixed.bpf.c:42-54 | in any run a charge finds room in the accounts, as only stamped pids are charged |
| `SchedExact.StatsAfterSwitch` | bpfix-bench/cases/rs_eunomia_energy_runtime_merge_001/fixed.bpf.c:68-100 | the statistics after any switch of any run, by the maps: pids, time, elapsed time and what the accounts then hold |
| `SchedExact.EverySwitchCounted` | bpfix-bench/cases/rs_eunomia_energy_runtime_merge_001/fixed.bpf.c:68-100 | every switch of a run is counted once, as processed or as passed over |
| `SchedExact.ExactIffOnTime` | bpfix-bench/cases/rs_eunomia_energy_runtime_merge_001/fixed.bpf.c:118-152 | one switch keeps exact accounts exact iff the pid it leaves was stamped at the time of the previous switch, or it is passed over and no time has passed; a wrapped sum cannot hide an error |
| `SchedExact.AlwaysExactIff` | bpfix-bench/cases/rs_eunomia_energy_runtime_merge_001/fixed.bpf.c:68-155 | over every run, whatever its clock and its pids: the accounts are exact after every switch iff every switch is on time in that sense |
| `SchedExact.ChainedIsOnTime` | bpfix-bench/cases/rs_eunomia_energy_runtime_merge_001/fixed.bpf.c:118-152 | chained runs of at most sixteen pids are one case of it |
| `WriteAggregate.FormatFdDetail` | bpfix-bench/cases/rs_agentsight_write_ctx_merge_001/fixed.bpf.c:52-65 | the bytes of the detail for every descriptor, the least one included |
| `WriteAggregate.SharedDetailIff` | bpfix-bench/cases/rs_agentsight_write_ctx_merge_001/fixed.bpf.c:52-65 | two descriptors share a detail iff they are equal, or have the same sign and are a multiple of ten apart, the least one excepted |
| `WriteAggregate.DetailShows` | bpfix-bench/cases/rs_agentsight_write_ctx_merge_001/fixed.bpf.c:52-65 | the bytes of the detail for every quotient and last digit of the descriptor, the least one included |
| `WriteAggregate.ConsumesIff` | bpfix-bench/cases/rs_agentsight_write_ctx_merge_001/fixed.bpf.c:95-120 | which packets consume a context, by their bytes |
| `WriteAggregate.CountedWhere` | bpfix-bench/cases/rs_agentsight_write_ctx_merge_001/fixed.bpf.c:67-136 | where a consumed write is counted: under pid and detail while there is an entry or fewer than thirty-two, else in the overflow counter |
| `WriteAggregate.TwoWritesOneEntryIff` | bpfix-bench/cases/rs_agentsight_write_ctx_merge_001/fixed.bpf.c:67-136 | two writes of one process end in one aggregate entry iff their descriptors share the detail, such as 3 and 13; the entry then names the second only |
| `WriteAggregate.WriteProgram.Xdp` | bpfix-bench/cases/rs_agentsight_write_ctx_merge_001/fixed.bpf.c:95-136 | contexts, aggregates, overflow and verdict after one packet |
| `WriteAggregate.UpdateSums` | bpfix-bench/cases/rs_agentsight_write_ctx_merge_001/fixed.bpf.c:67-93 | one update adds one to counts plus overflow, and adds the bytes iff the event is counted |
| `WriteAggregate.NothingIsLost` | bpfix-bench/cases/rs_agentsight_write_ctx_merge_001/fixed.bpf.c:67-136 | over any run whose totals fit: counts plus overflow are the contexts consumed, summed bytes those of the dropped packets |
| `PathAggregate.ExtractDirPrefix` | bpfix-bench/cases/rs_agentsight_fs_overflow_counter_merge_001/fixed.bpf.c:54-70 | the detail: the bytes before the first NUL, at most seven, with the last slash cut out |
| `PathAggregate.DirPrefixBytes` | bpfix-bench/cases/rs_agentsight_fs_overflow_counter_merge_001/fixed.bpf.c:54-70 | every byte of the detail: the byte of the path, except past its NUL, in place of the last slash, and at the end |
| `PathAggregate.PathProgram.Xdp` | bpfix-bench/cases/rs_agentsight_fs_overflow_counter_merge_001/fixed.bpf.c:72-140 | both maps and the verdict after one packet |
| `PathAggregate.EntryOfPacket` | bpfix-bench/cases/rs_agentsight_fs_overflow_counter_merge_001/fixed.bpf.c:72-129 | the entry a counted event leaves behind, from the bytes of the packet; nothing else is touched |
| `PathAggregate.FullMap` | bpfix-bench/cases/rs_agentsight_fs_overflow_counter_merge_001/fixed.bpf.c:104-129 | with four other entries an event is dropped iff the overflow counter exists, and otherwise leaves no trace |
| `PathAggregate.IgnoredPacket` | bpfix-bench/cases/rs_agentsight_fs_overflow_counter_merge_001/fixed.bpf.c:72-140 | with tracing off, a short packet or a zero selector, nothing happens |
| `PathAggregate.NoShadowBesideBase` | bpfix-bench/cases/rs_agentsight_fs_overflow_counter_merge_001/fixed.bpf.c:31-45 | beside key 0 a map of capacity one holds no odd key, so the shadow counter is never reached |
| `PathAggregate.EveryDropIsCounted` | bpfix-bench/cases/rs_agentsight_fs_overflow_counter_merge_001/fixed.bpf.c:72-129 | from any maps the capacities allow, counts plus base overflow grow by exactly the number of drop verdicts, and the overflow map keeps its keys |
| `AllocStats.LeakTracer.Xdp` | bpfix-bench/cases/rs_tutorial_memleak_free_info_merge_001/fixed.bpf.c:53-76 | both maps and the verdict after one free; an unknown address changes nothing |
| `AllocStats.LiveAfterRun` | bpfix-bench/cases/rs_tutorial_memleak_free_info_merge_001/fixed.bpf.c:53-76 | what is live after a run is what no complete packet has named, unchanged |
| `AllocStats.FreeKeepsDrift` | bpfix-bench/cases/rs_tutorial_memleak_free_info_merge_001/fixed.bpf.c:41-76 | a free keeps, modulo 2^64, the discrepancy between the totals of a stack and its live allocations |
| `AllocStats.RunKeepsDrift` | bpfix-bench/cases/rs_tutorial_memleak_free_info_merge_001/fixed.bpf.c:41-76 | so does every run, whatever the maps held at the start |
| `AllocStats.NoUnderflow` | bpfix-bench/cases/rs_tutorial_memleak_free_info_merge_001/fixed.bpf.c:41-51 | a free never subtracts more than exact totals hold |
| `AllocStats.RunKeepsExact` | bpfix-bench/cases/rs_tutorial_memleak_free_info_merge_001/fixed.bpf.c:41-76 | exact totals stay exact over every run and are all zero once nothing is live |
| `CpuObserver.Popcount32` | bpfix-bench/cases/rs_nccl_cpu_observer_slot_merge_001/fixed.bpf.c:59-66 | the number of set bits |
| `CpuObserver.BitsOfUnion` | bpfix-bench/cases/rs_nccl_cpu_observer_slot_merge_001/fixed.bpf.c:88-96 | recording a CPU adds exactly that CPU to the set the mask stands for |
| `CpuWatch.Observer.SchedSwitch` | bpfix-bench/cases/rs_nccl_cpu_observer_slot_merge_001/fixed.bpf.c:68-134 | slots and published report after one event: only the copy of the event's own CPU is read and written |
| `CpuWatch.SlotsChangeIff` | bpfix-bench/cases/rs_nccl_cpu_observer_slot_merge_001/fixed.bpf.c:75-96 | an event changes the slots iff a target with a slot is configured and the current task, the one switched out or the one switched in is the target |
| `CpuWatch.JudgementIs` | bpfix-bench/cases/rs_nccl_cpu_observer_slot_merge_001/fixed.bpf.c:104-116 | the judgement under configured limits and under the defaults of four CPUs and 2000 switches |
| `CpuWatch.CopyRunsAlone` | bpfix-bench/cases/rs_nccl_cpu_observer_slot_merge_001/fixed.bpf.c:44-49 | over every run from any slots, what the copy of a CPU holds is decided by what it held at first and the relevant events on that CPU alone |
| `CpuWatch.RunReflects` | bpfix-bench/cases/rs_nccl_cpu_observer_slot_merge_001/fixed.bpf.c:68-134 | over every run over any number of CPUs from zeroed slots, with a clock monotone on the CPU and no count wrap: the copy of a CPU holds the start, the number of events and the CPUs of that CPU's current window |
| `CpuObserver.WindowShape` | bpfix-bench/cases/rs_nccl_cpu_observer_slot_merge_001/fixed.bpf.c:98-134 | a window opens with the event at its start (the first at time 0), and all its events come within a second |
| `CpuObserver.SlotRateIsExact` | bpfix-bench/cases/rs_nccl_cpu_observer_slot_merge_001/fixed.bpf.c:98-116 | a window is closed exactly when it is a second old; its rate is its events times 10^9 over elapsed time, rounded down, and never exceeds their number, so neither the product nor the clamp matters |
| `CpuObserver.WindowRateIs` | bpfix-bench/cases/rs_nccl_cpu_observer_slot_merge_001/fixed.bpf.c:98-104 | that rate as a division of whole numbers |
| `CpuWatch.MaskOfOneCpu` | bpfix-bench/cases/rs_nccl_cpu_observer_slot_merge_001/fixed.bpf.c:94-131 | the mask of a slot that events of one CPU reach holds that CPU and, until a first window is closed, what it held at first |
| `CpuWatch.PublishedReport` | bpfix-bench/cases/rs_nccl_cpu_observer_slot_merge_001/fixed.bpf.c:98-134 | after every relevant event: the report is unchanged or, if the window of its CPU is a second old, has the event's time, the exact rate of that CPU, the number of CPUs recorded there (at most one) and the judgement limited |
| `CpuWatch.OnlyLimitedIsReported` | bpfix-bench/cases/rs_nccl_cpu_observer_slot_merge_001/fixed.bpf.c:44-116 | whatever the configuration, the clock and the counts, no run from zeroed slots ever reports anything but a limit on CPUs, and no report names more than one CPU |
| `CpuWatch.LaterReportsNameOne` | bpfix-bench/cases/rs_nccl_cpu_observer_slot_merge_001/fixed.bpf.c:118-131 | from any slots: once a copy has closed a window its reports name at most one CPU |
| `CpuWatch.ReportsAtMostIff` | bpfix-bench/cases/rs_nccl_cpu_observer_slot_merge_001/fixed.bpf.c:98-131 | from any slots: a number bounds the CPUs named by every report of every run iff it bounds, for every CPU, those of its copy's first mask together with the CPU itself |
| `CpuWatch.AlwaysLimitedIff` | bpfix-bench/cases/rs_nccl_cpu_observer_slot_merge_001/fixed.bpf.c:98-116 | from any slots: every report of every run says limited iff no such first mask exceeds the configured limit |
| `CpuObserver.QuotientIsDivision` | bpfix-bench/cases/rs_nccl_cpu_observer_slot_merge_001/fixed.bpf.c:104-110 | the quotient used for the rate is integer division |
| `Sampler.StratifiedSample` | docs/evaluation/evaluate_diagnostics.py:832-863 | the loop over buckets yields the loop-free reference sample, for every size, negative ones included; terminates |
| `Sampler.FillRoundRobin` | docs/evaluation/evaluate_diagnostics.py:848-863 | the round-robin loop takes the rounds over the buckets, in order, up to the remaining size |
| `Sampler.PlayRound` | docs/evaluation/evaluate_diagnostics.py:850-860 | one pass takes the head of every nonempty bucket until nothing remains to be taken |
| `Sampler.SortedUnique` | docs/evaluation/evaluate_diagnostics.py:840-848 | two sorted arrangements of the same rows with distinct keys are the same |
| `SamplerProperties.SampleSize` | docs/evaluation/evaluate_diagnostics.py:832-863 | the sample has min(size, rows) rows, each row no more often than in the input |
| `SamplerProperties.MinorityIsKept` | docs/evaluation/evaluate_diagnostics.py:840-845 | when they fit, all rows that are not source bugs are in the sample |
| `SamplerProperties.Partition` | docs/evaluation/evaluate_diagnostics.py:840-853 | minority and strata together hold every row exactly as often as the input |
| `SamplerProperties.RoundsAreFair` | docs/evaluation/evaluate_diagnostics.py:855-863 | two strata differ by at most one row unless the smaller is exhausted, over any buckets |
| `SamplerProperties.SampleIsFair` | docs/evaluation/evaluate_diagnostics.py:855-863 | the sample takes a key-order prefix of each stratum, and two strata differ by at most one row unless the smaller is taken whole |
| `SamplerProperties.PlaceOfRow` | docs/evaluation/evaluate_diagnostics.py:848-863 | the place of every row in the rounds: after the rows of earlier rounds and those of earlier sources in its own |
| `SamplerProperties.SampleShape` | docs/evaluation/evaluate_diagnostics.py:840-863 | the minority in key order, then the rounds, cut to size; a negative size only shortens the minority |
| `SamplerProperties.StrataInOrder` | docs/evaluation/evaluate_diagnostics.py:845-854 | the strata are visited in ascending order of their sources, each in key order |
| `SamplerProperties.OrderDoesNotMatter` | docs/evaluation/evaluate_diagnostics.py:832-863 | with distinct sort keys, reordering the input gives the same sample in the same order |
| `Checksum.PseudoSum` | bpfix-bench/cases/helper_csum_diff_stack_len_001/test.py:25-31 | the loop yields the swapped one's-complement sum of the header words, folded after every word |
| `Checksum.FoldEachIsFold` | bpfix-bench/cases/helper_csum_diff_stack_len_001/test.py:25-31 | folding after every word equals folding the whole sum, the nonzero residue modulo 0xFFFF |
| `Checksum.SumOfSwapped` | bpfix-bench/cases/helper_csum_diff_stack_len_001/test.py:25-31 | the sum of swapped words is the swapped sum |
| `Checksum.ByteOrderIndependence` | bpfix-bench/cases/helper_csum_diff_stack_len_001/fixed.bpf.c:60-76 | for any buffer, summing in machine order is swapping the sum in network order |
| `Checksum.ChecksumProgram.Xdp` | bpfix-bench/cases/helper_csum_diff_stack_len_001/fixed.bpf.c:29-78 | the stored sum and the verdict; a packet is dropped exactly when it is accepted, as the sum is never zero |
| `Checksum.AcceptedIff` | bpfix-bench/cases/helper_csum_diff_stack_len_001/fixed.bpf.c:29-57 | the guards and the payload length, byte by byte |
| `Checksum.FramesPass` | bpfix-bench/cases/helper_csum_diff_stack_len_001/test.py:21-22 | no frame of the oracle with a zero payload is accepted, whatever its type, nor its truncated packet |
| `Checksum.PseudoSumNonzero` | bpfix-bench/cases/helper_csum_diff_stack_len_001/fixed.bpf.c:70-76 | the sum of a pseudo-header is never zero |
| `Checksum.ProtocolAndLengthDisjoint` | bpfix-bench/cases/helper_csum_diff_stack_len_001/fixed.bpf.c:56-68 | the bitwise or of the shifted protocol number and a length is their sum: neither disturbs the other |
| `Checksum.StoredSumIsPseudoSum` | bpfix-bench/cases/helper_csum_diff_stack_len_001/fixed.bpf.c:56-76 | for every accepted packet the stored sum is the oracle's sum of its header fields |
| `Checksum.OraclePacketSum` | bpfix-bench/cases/helper_csum_diff_stack_len_001/test.py:13-18 | every packet the oracle builds is accepted and gets the sum of the fields it was built from |
| `IpOptions.LoadTraceId` | bpfix-bench/cases/rs_cilium_ip_options_traceid_payload_bound_001/fixed.bpf.c:31-62 | the big-endian value of a complete 16, 32 or 64 bit option, otherwise malformed |
| `IpOptions.TraceIdFromIp4` | bpfix-bench/cases/rs_cilium_ip_options_traceid_payload_bound_001/fixed.bpf.c:64-103 | the loop equals a recursive option walk (section 3.1 of RFC 791) cut at three options; every read is inside the packet |
| `IpOptions.Xdp` | bpfix-bench/cases/rs_cilium_ip_options_traceid_payload_bound_001/fixed.bpf.c:105-129 | drop iff the packet is UDP over IPv4 and the walk finds the wanted id |
| `IpOptions.WalkFindsIff` | bpfix-bench/cases/rs_cilium_ip_options_traceid_payload_bound_001/fixed.bpf.c:64-103 | the walk finds an id iff positions exist that lead over skippable options to a complete trace option with that id |
| `IpOptions.DropsIff` | bpfix-bench/cases/rs_cilium_ip_options_traceid_payload_bound_001/fixed.bpf.c:64-129 | a packet is dropped iff it is UDP over IPv4 with options and one of the first three, reached over skippable ones, carries 0x1234; by its bytes |
| `IpOptions.SkippableIff` | bpfix-bench/cases/rs_cilium_ip_options_traceid_payload_bound_001/fixed.bpf.c:76-98 | which options the walk steps over, and how far |
| `IpOptions.ShortOptionBytes` | bpfix-bench/cases/rs_cilium_ip_options_traceid_payload_bound_001/test.py:49-62 | the bytes of the built 16-bit options |
| `IpOptions.BuiltOptionRoundTrip` | bpfix-bench/cases/rs_cilium_ip_options_traceid_payload_bound_001/test.py:15-59 | a built option of 16, 32 or 64 bits is read back as the encoded value whatever follows it; drop iff UDP and the wanted value |
| `IpOptions.BuiltNoopRoundTrip` | bpfix-bench/cases/rs_cilium_ip_options_traceid_payload_bound_001/test.py:61-62 | the same after a no-operation option |
| `IpOptions.BuiltWithoutOptionsPasses` | bpfix-bench/cases/rs_cilium_ip_options_traceid_payload_bound_001/test.py:65-66 | a packet without options passes |
| `Bytes.NetworkLoad` | bpfix-bench/cases/rs_cilium_ip_options_traceid_payload_bound_001/fixed.bpf.c:31-62 | swapping a little-endian load of any width gives the network-order value |

## Left out

- Text parsing: regular expressions, log splitting and JSON text. Instructions, log lines (register states as the list of mentions a line contains, calls, at most one store and one load) and JSON values are taken as parsed; the object keys the tools look up are constructors of `Name`.
- Subprocesses, compiling and loading, HTTP, hashing, file writing, git and model metadata, manifests and argument parsing.
- Runner rows of a local candidate or of prompt-only runs, and exceptions the runner does not catch; the audit covers such rows in summaries of any origin.
- Prompts are kept as text where the runner records their hash and length; finish reason, response and reasoning lengths, candidate paths and oracle output copies are not recorded.
- Floating point: times are whole microseconds, so rounding to six digits and the tolerance of comparisons are not modelled.
- Entries of an attempts list that are not objects, on which the auditor raises an exception.
- Report sections that are not lists: they are read as empty, where iterating over some of them would raise an exception in Python.
- Texts of error messages: a finding of the audit is its kind, without case and wording; the order of findings is not part of the contracts.
- Map value pointers: a value is read out, changed and stored back, so aliasing and concurrent access are not captured.
- Writes of user space to the slot and configuration maps of the observer during a run.
- Ring buffer output of the scheduler program, and the per-CPU scratch array of the mmap program, in which one ref is put together: foreign helpers or plain memory. Names and output texts in the opensnoop oracle's report, which no tool looks up, are left out of `OpensnoopReport`.
- `bpf_csum_diff` itself: it is assumed to return the folded sum of the buffer's 16-bit words.
- Sort keys are arbitrary integer functions in place of SHA-256 digests, source kinds are their ranks, and the built-in sort is a stable insertion sort on values.
- `extract_dir_prefix` as a grouping by directory: the bytes after the cut slash stay in the key, so paths of one directory need not share a key.
- The `buggy.bpf.c` programs, the small loop-free repairs, `stored_map_value_u32_offset`, `packet_u16_load_from_variable_offset` and the register-taint trackers of single oracles.
- Keyword tables of the evaluation scripts, the remaining audit of metadata, and the Rust crates.
