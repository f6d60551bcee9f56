# Sentinel: a Dafny model of its core mechanisms

Sentinel guards a machine at several levels: a compiler pass that opens and
closes intents, a loader and a kernel hook that check every system call against
a policy, an introspection daemon that watches a guest from the hypervisor, and
a firmware driver that locks the flash. This project models the hard core of
each and proves what it promises, over all inputs and all runs.

| module | what it models |
|---|---|
| `ControlFlow`, `IntentPass`, `IntentScopes` | the compiler pass, and a one-bit machine that runs the lowered code along every path |
| `GuestMemory`, `PageWalk` | guest physical memory through the QEMU process, the four-level page walk, chunked reads and writes |
| `RegionHash`, `NptGuard` | region hashes, baselines, change reports, page arming and bounds |
| `Drawbridge` | registration, intents and authorised writes as one protocol |
| `PrivilegeBaseline`, `PrivilegeRuns` | the process list walk, the bounded credential cache, and its reports over runs of any length |
| `ThreatPolicy`, `PolicyTable`, `AlertBridge` | escalation and suppression, the bounded policy table, the alert queue |
| `CallGraph`, `ModuleTrie`, `SyscallPolicy` | the library call graph, the address trie, the policy maps and the kernel's decision |
| `AuditJson`, `AuditLine`, `Dashboard` | the audit line from the loader's printer to the dashboard's totals |
| `SpiLockdown` | the flash lockdown with latch, S3 reset and replay |
| `Bits`, `Common` | bit operations on naturals, words and fields; optional values and counting |

Code that works in place is a class or a loop proved against a specification
function; the results over whole runs are lemmas about that function. Machine
words wrap where the code lets them: `u32` and `u64` are subset types and every
sum that can overflow is reduced explicitly.

What the code does not do is stated as exactly as what it does. Several
expected properties fail in a corner. There the model has a lemma with the
failing input and a theorem that says for all inputs when the property holds:

- the 32-bit burst counter: `FiveEscalate`, `FiveCanPass`;
- a region that hashes to zero: `ReportsOnChange`, `ZeroHash`, `ZeroHashMissed`;
- a flush that writes a queued alert over a malicious mark: `MarkSurvivesFlush`,
  `FlushOverwritesMark`;
- two regions on one page: `DirectIffNotShadowed`, `ShadowingHappens`,
  `WriteSignalledIff`, `CriticalByteUnderstated`;
- a region that takes the system call table's name: `UntouchedReportedIff`,
  `UntouchedReported`, `BaselineIsCleanIff`, `RetakenCopyHidesEdit`;
- a write put down to the kernel's tables whoever makes it:
  `AdmittedIffKernelIntent`, `WriterNotConsulted`;
- a region in the last page of the address space: `AllBytesFoundIff`,
  `ArmingEndsIff`, and for modules `CoveringEndsIff`;
- a scan counter that wraps: `CacheOverRuns`, `ExactUnlessWrapped`,
  `GenerationWrapForgets`, `EvictedAfterWrap`;
- more caller sites than the map holds: `CfiMapKeeps`, `NotDeniedIff`,
  `BadCallerAllowed`;
- overlapping symbols: `ResolvedIff`, `UnresolvedMeansOverlap`, `OverlapCanMiss`;
- nested intents: `ScopesExactIff`, `NestedIntentNotSeparate`;
- a latch that was set before the driver ran: `ProtectedIff`, `LockdownLastsIff`.

Where code and comments disagree the model follows the code: the header
`sentinel-smm/src/SentinelSpiLockdown.h:119-122` calls re-assertion on resume
deferred, while the driver records it; and a comment in the kernel hook
(`legacy_v1/sentinel-cc/src/kernel/sentinel.bpf.c:280-291`) calls the thread
override a bitmask of classes, while the code compares it as the largest number
allowed.

The clock, random numbers, the outcome of each transfer call, what a failed read
leaves in a buffer, the guest's memory and process list, which boot script records the firmware accepts, and the
dominator tree and dominance frontier are parameters of the model. The
dominance analyses are specified from paths alone.

## Model

| member | source | states |
|---|---|---|
| `IntentPass.Module.CollectIntents` | legacy_v1/sentinel-cc/src/compiler/SentinelPass.cpp:36-55 | The collected intents are the start calls of the module, every one and nothing else, in layout order. |
| `IntentPass.Module.InjectOne` | legacy_v1/sentinel-cc/src/compiler/SentinelPass.cpp:93-142 | For one intent, exactly its own start call becomes a set call, every block of the dominance frontier gains one clear at its front, every dominated return or resume block one before its terminator, and all other functions stay as they were. |
| `IntentPass.Module.InsertClears` | legacy_v1/sentinel-cc/src/compiler/SentinelPass.cpp:135-139 | The result is one clear per exit point, whatever order the set of instructions is traversed in. |
| `IntentPass.Module.InjectAll` | legacy_v1/sentinel-cc/src/compiler/SentinelPass.cpp:93-142 | The loop that edits blocks in place, intent after intent, meets the closed description of the lowered function: counted clears around a body whose start calls became set calls. |
| `IntentPass.Module.RewriteEnds` | legacy_v1/sentinel-cc/src/compiler/SentinelPass.cpp:144-164 | Searching every block for end calls, inserting a clear before each, and then erasing the calls found leaves every function as it was with each end call turned into a clear where it stood. |
| `IntentPass.Module.InsertBeforeEnds` | legacy_v1/sentinel-cc/src/compiler/SentinelPass.cpp:148-161 | The search inserts one clear before every end call and marks exactly the end calls for deletion. |
| `IntentPass.Module.EraseMarked` | legacy_v1/sentinel-cc/src/compiler/SentinelPass.cpp:162-163 | Exactly the marked instructions go, and the others keep their order. |
| `IntentPass.KeptDoubled` | legacy_v1/sentinel-cc/src/compiler/SentinelPass.cpp:144-164 | Inserting before the end calls and erasing them is a replacement in place: nothing moves. |
| `IntentPass.Module.Run` | legacy_v1/sentinel-cc/src/compiler/SentinelPass.cpp:25-167 | The whole pass yields the lowered functions, and leaves a module without start calls untouched. |
| `IntentPass.LowerStep` | legacy_v1/sentinel-cc/src/compiler/SentinelPass.cpp:93-142 | Lowering one more intent on top of the earlier ones is one injection: intents do not disturb each other. |
| `IntentScopes.NoIntentSurvivesExit` | legacy_v1/sentinel-cc/src/compiler/SentinelPass.cpp:93-142 | On every path of every control-flow graph, with any number of starts and ends, nested or in loops, a return or resume is reached with no intent active. |
| `IntentScopes.ActiveOnlyInScope` | legacy_v1/sentinel-cc/src/compiler/SentinelPass.cpp:101-139 | On every run an intent is active at a point only if some start call dominates that point. |
| `IntentScopes.ScopesExactIff` | legacy_v1/sentinel-cc/src/compiler/SentinelPass.cpp:101-139 | Without end calls, activity coincides with the scopes of the starts at every point of every run if and only if no start block has its dominance frontier inside the scope of another. |
| `IntentScopes.SingleStartExact` | legacy_v1/sentinel-cc/src/compiler/SentinelPass.cpp:101-139 | With one start block and no end calls the intent is active at a point, on every path to it, exactly when a start dominates the point. |
| `IntentScopes.ClosedEarly` | legacy_v1/sentinel-cc/src/compiler/SentinelPass.cpp:118-124 | When a frontier block of one start lies in the scope of another, some run enters it with the outer intent already cleared. |
| `IntentScopes.NestedIntentNotSeparate` | legacy_v1/sentinel-cc/src/compiler/SentinelPass.cpp:118-124 | A three-block function with a conditional inner intent, its analysis and its intents are such a case: the join closes the outer scope, and activity and scope do not coincide. |
| `IntentScopes.PathScope` | legacy_v1/sentinel-cc/src/compiler/SentinelPass.cpp:93-142 | The invariant of every run, by induction on the path: at a block end the intent is active only under a dominating start, and never past an exit. |
| `IntentScopes.StartDominatesPoint` | legacy_v1/sentinel-cc/src/compiler/SentinelPass.cpp:101-133 | Dominance of a point, defined over all paths, is: earlier in the same block, or a strictly dominating block. |
| `IntentScopes.FrontCleared` | legacy_v1/sentinel-cc/src/compiler/SentinelPass.cpp:118-124 | A block is cleared at its front exactly when it is in the dominance frontier of some start block. |
| `IntentScopes.BackCleared` | legacy_v1/sentinel-cc/src/compiler/SentinelPass.cpp:126-133 | A reachable block is cleared before its terminator exactly when it returns or resumes and some start block dominates it. |
| `ControlFlow.FrontierOrDominated` | legacy_v1/sentinel-cc/src/compiler/SentinelPass.cpp:118-133 | Leaving a dominated block along an edge lands in a strictly dominated block or in the frontier, so no edge escapes both kinds of clear. |
| `GuestMemory.EnumerateMemslots` | release_payload/src/vmi/src/kvmi_setup.c:779-826 | From any maps file: slots are contiguous from guest address 0, non-empty and non-wrapping, mirror the RAM lines in order, never share a host byte when the lines do not overlap, and stop early only at the table size or the end of the guest space. |
| `GuestMemory.CandidateIff` | release_payload/src/vmi/src/kvmi_setup.c:730-753 | A mapping is taken for guest memory if and only if it is readable and writable, 2M or more, and its path holds one of four names and none of five others. |
| `GuestMemory.Session.ReadRemote` | release_payload/src/vmi/src/memory.c:56-89 | Under every schedule of partial transfers and errors, success means the exact bytes; failure has one of the listed causes, and at most four calls are made per byte. |
| `GuestMemory.Session.WriteRemote` | release_payload/src/vmi/src/memory.c:91-125 | Exactly a prefix of the data has been written and no other byte touched, the whole of it on success; failures have one of the listed causes. |
| `GuestMemory.Session.FindMemslot` | release_payload/src/vmi/src/memory.c:38-50 | Returns the slot that holds an address, and -1 only if no slot does. |
| `GuestMemory.Session.ReadPhysical` | release_payload/src/vmi/src/memory.c:127-157 | A read across slots is a slice of flat guest memory; it fails only for an empty or outside range, a missing process or a transfer that gave up. |
| `GuestMemory.Session.WritePhysical` | release_payload/src/vmi/src/memory.c:159-191 | A write across slots changes flat guest memory exactly in the written prefix, and no host byte that does not back it; failures have one of the listed causes, and at most four calls are made per byte. |
| `GuestMemory.RamIsConcatenation` | release_payload/src/vmi/src/kvmi_setup.c:779-826 | Flat guest memory is the concatenation of the mappings in slot order. |
| `GuestMemory.HostInjective` | release_payload/src/vmi/src/kvmi_setup.c:800-826 | Two guest addresses never share a host byte. |
| `GuestMemory.Session.WriteThenRead` | release_payload/src/vmi/src/memory.c:127-191 | A write and then a read of any range, both across slots and through partial transfers: where both succeed, each byte read is the one written at its address, or the one that was there before the write. |
| `PageWalk.GvaToGpa` | release_payload/src/vmi/src/memory.c:281-338 | The walk over guest memory yields the architectural translation, and fails only if there is none or the transfer layer failed. |
| `PageWalk.TranslateIff` | release_payload/src/vmi/src/memory.c:281-338 | An address translates to another if and only if the bytes in memory map it there: the eight little-endian bytes at the table named by the register or entry before, plus eight times the nine address bits of each level, are present entries down to a leaf of 1G, 2M or 4K, whose frame bits and page offset make up the result. |
| `PageWalk.AbsentFails` | release_payload/src/vmi/src/memory.c:281-338 | An entry outside memory or not present, at any of the four levels, leaves the address without a translation. |
| `PageWalk.PlaceIsFramePlusOffset` | release_payload/src/vmi/src/memory.c:303-337 | For 4K, 2M and 1G leaves, masking and joining place an address at its page offset inside an aligned frame below 2^52. |
| `PageWalk.WalkLocal` | release_payload/src/vmi/src/memory.c:281-338 | Addresses of one page take the same walk to the same leaf, for each of the three leaf sizes. |
| `PageWalk.TranslateRigid` | release_payload/src/vmi/src/memory.c:281-338 | Translation moves a whole page rigidly, whatever the size of its leaf. |
| `PageWalk.TranslateInPage` | release_payload/src/vmi/src/memory.c:281-338 | Within a 4K page the translation of va + k is the translation of va plus k, and both fail together. |
| `PageWalk.ChunkIsBytewise` | release_payload/src/vmi/src/memory.c:345-374 | A chunk read at one translated address is what translating each byte by itself gives. |
| `PageWalk.ReadVirtual` | release_payload/src/vmi/src/memory.c:345-374 | The page-chunked read refines the byte-wise one for every length and mixture of page sizes: each byte of the buffer is the byte at its own translation, and it fails only if some byte has none or the transfer failed. |
| `ThreatPolicy.StreakHolds` | release_payload/src/vmi/src/bridge.c:459-505 | In every run the last `burst` signals of a process are suspicious and inside the open window. |
| `ThreatPolicy.EscalationJustified` | release_payload/src/vmi/src/bridge.c:472-487 | Over every run an escalation means the last three signals of the process are suspicious and span at most ten seconds. |
| `ThreatPolicy.EscalatesIff` | release_payload/src/vmi/src/bridge.c:472-488 | Over the history alone: a signal escalates if and only if it is suspicious and the third or a later one, counted modulo 2^32, since its window opened with the first signal, a malicious one, or one more than ten seconds after the opening before. |
| `ThreatPolicy.FiveEscalate` | release_payload/src/vmi/src/bridge.c:472-487 | Five suspicious signals within ten seconds, none malicious between, include an escalation if and only if the 32-bit burst counter does not wrap on the first with the window closing after the third. |
| `ThreatPolicy.FiveEscalateInShortRuns` | release_payload/src/vmi/src/bridge.c:472-487 | In every run of fewer than 2^32 signals the five always escalate. |
| `ThreatPolicy.FiveCanPass` | release_payload/src/vmi/src/bridge.c:472-487 | The wrap is reachable: there is a run in which five such signals pass without an escalation. |
| `ThreatPolicy.DuplicatesSpaced` | release_payload/src/vmi/src/bridge.c:489-505 | Consecutive accepted alerts of a process at one level are a second or more apart, unless the later one is an escalation. |
| `ThreatPolicy.SuppressedIsRepeat` | release_payload/src/vmi/src/bridge.c:489-505 | A suppressed signal repeats the level of the last accepted one, less than a second old. |
| `ThreatPolicy.NeverDowngraded` | release_payload/src/vmi/src/bridge.c:459-505 | The effective level is never below the requested one, exceeds it only by escalation, and an escalation is never suppressed. |
| `PolicyTable.AlwaysUnique` | release_payload/src/vmi/src/bridge.c:440-457 | No reachable table holds a process twice, evictions included. |
| `PolicyTable.TableIsMap` | release_payload/src/vmi/src/bridge.c:440-505 | While at most 1024 processes have signalled, the table is an unbounded map from processes to the state their own signals lead to. |
| `PolicyTable.StepKeepsOthers` | release_payload/src/vmi/src/bridge.c:440-457 | Within that capacity a signal never takes the slot of another process. |
| `AlertBridge.Bridge.constructor` | release_payload/src/vmi/src/bridge.c:544-566 | The bridge starts with an empty table and an empty queue. |
| `AlertBridge.Bridge.GetPolicyState` | release_payload/src/vmi/src/bridge.c:440-457 | The slot returned is the first that holds the process, else the first free one, else the one its number falls on, and only a newly claimed slot is reset. |
| `AlertBridge.Bridge.ApplyThreatPolicy` | release_payload/src/vmi/src/bridge.c:459-505 | The in-place update is one step of the policy on the state the process had. |
| `AlertBridge.Bridge.EmitAlert` | release_payload/src/vmi/src/bridge.c:507-515 | One alert goes out and the processed counter follows, within 64 bits, whether or not the map takes the write. |
| `AlertBridge.Bridge.EnqueueAlert` | release_payload/src/vmi/src/bridge.c:517-538 | No accepted alert is lost: a full queue is flushed first, in order, an immediate alert is sent at once, any other waits last in the queue. |
| `AlertBridge.Bridge.FlushAlerts` | release_payload/src/vmi/src/bridge.c:626-647 | Every pending alert is sent once, in order, and the queue is emptied. |
| `AlertBridge.Bridge.Raise` | release_payload/src/vmi/src/bridge.c:585-624 | Over every interleaving of signals and flushes, each accepted alert is emitted or pending exactly once, what is sent and what waits is known in order, and the verdict is the one the signals of that process alone would get. |
| `AlertBridge.Bridge.Teardown` | release_payload/src/vmi/src/bridge.c:568-583 | After teardown the emitted alerts are exactly the accepted ones. |
| `AlertBridge.ConservedCounts` | release_payload/src/vmi/src/bridge.c:507-538 | Accepted alerts are as many as the sent and the pending together. |
| `AlertBridge.MapLookup` | release_payload/src/vmi/src/bridge.c:440-457 | Within capacity a lookup gives the state of the process's own signals. |
| `AlertBridge.MarkSurvivesFlush` | release_payload/src/vmi/src/bridge.c:626-647 | A malicious mark in the alert map survives a flush if and only if no suspicious alert of the process that is pending, older or newer, is taken by the map; otherwise the flush overwrites it. |
| `AlertBridge.FlushOverwritesMark` | release_payload/src/vmi/src/bridge.c:585-647 | The overwriting happens: a suspicious and then a malicious signal for any process leave it marked, and the next flush unmarks it. |
| `PrivilegeBaseline.SnapshotProcesses` | release_payload/src/vmi/src/task_walker.c:306-330 | The walk returns the linked tasks in order and stops only at the cap, at an unreadable task or back at the first one. |
| `PrivilegeBaseline.RingSnapshot` | release_payload/src/vmi/src/task_walker.c:306-330 | A ring within the cap is snapshotted whole. |
| `PrivilegeBaseline.RingDistinct` | release_payload/src/vmi/src/task_walker.c:306-330 | No task of a ring is visited twice. |
| `PrivilegeBaseline.Monitor.constructor` | release_payload/src/vmi/src/task_walker.c:349-387 | The cache starts empty. |
| `PrivilegeBaseline.Monitor.FindOrAlloc` | release_payload/src/vmi/src/task_walker.c:349-387 | The slot of a process is its own, else the first free one, else the one with the lowest generation, and only a claimed slot is reset. |
| `PrivilegeBaseline.Monitor.DetectPrivilegeEscalation` | release_payload/src/vmi/src/task_walker.c:599-667 | The in-place scan yields the findings and the cache that stepping through the snapshot gives, counting root transitions and capability gains. |
| `PrivilegeBaseline.DetectionsAre` | release_payload/src/vmi/src/task_walker.c:634-653 | The number of detections is the number of turns to root plus the number of gains of capabilities. |
| `PrivilegeBaseline.EvictionIsStale` | release_payload/src/vmi/src/task_walker.c:363-387 | Eviction never takes an entry refreshed in the previous or the current scan. |
| `PrivilegeBaseline.ScanKeepsInv` | release_payload/src/vmi/src/task_walker.c:599-667 | Through a scan of up to 4096 tasks the 8192-entry cache stays accurate and holds every process of this scan and the last. |
| `PrivilegeBaseline.CacheAgreesWithRecord` | release_payload/src/vmi/src/task_walker.c:599-667 | Before the scan counter wraps, a process seen in the scan before is judged as an unbounded record of all credentials would judge it, and any other is judged so or not at all. |
| `PrivilegeBaseline.AlwaysUnique` | release_payload/src/vmi/src/task_walker.c:349-387 | No process ever has two entries, over scans of any number and size. |
| `PrivilegeRuns.CacheOverRuns` | release_payload/src/vmi/src/task_walker.c:599-667 | Over every run, of any number of scans of any size, wrapped or not: the report is the one of the unbounded record if the cache still holds the process and the number of the scan that last saw it is not a multiple of 2^32, and nothing otherwise. So a report is never wrong. |
| `PrivilegeRuns.RecordReportsIff` | release_payload/src/vmi/src/task_walker.c:628-653 | Over every run: a turn to root, or a gain of capabilities, is reported if and only if the process is a user process, not one of five by name, and its last observation before had another effective user, or lacked a capability bit it has now. |
| `PrivilegeRuns.CacheReportsIff` | release_payload/src/vmi/src/task_walker.c:628-653 | The bounded cache reports just that for every process it holds whose last scan was not a multiple of 2^32. |
| `PrivilegeRuns.ExactUnlessWrapped` | release_payload/src/vmi/src/task_walker.c:599-667 | While no more than 8192 processes have ever been seen, over runs of any length, the report is exact unless the number of the scan that last saw the process is a multiple of 2^32. |
| `PrivilegeRuns.TrackedRun` | release_payload/src/vmi/src/task_walker.c:349-387 | In every run, whatever an entry holds is the last observation of its process, marked with the low 32 bits of the scan number. |
| `PrivilegeRuns.HeldRun` | release_payload/src/vmi/src/task_walker.c:349-387 | While no more than 8192 processes have ever been seen, none is evicted. |
| `PrivilegeRuns.GenerationWrapForgets` | release_payload/src/vmi/src/task_walker.c:599-667 | The wrap is reachable: in a run of 2^32 scans a process first seen by the last one turns root unreported. |
| `PrivilegeRuns.EvictedAfterWrap` | release_payload/src/vmi/src/task_walker.c:363-387 | The second failure after the wrap: a run in which a process seen in the scan before is evicted, because its small generation looks oldest in a full cache, and turns root unreported. |
| `RegionHash.PrimeInverse` | release_payload/src/vmi/src/npt_guard.c:112-121 | Multiplying by the hash prime modulo 2^64 can be undone. |
| `RegionHash.StepInjective` | release_payload/src/vmi/src/npt_guard.c:112-121 | Different accumulators stay different through every byte. |
| `RegionHash.HashConcat` | release_payload/src/vmi/src/npt_guard.c:112-121 | Hashing in pieces is hashing at once. |
| `RegionHash.OneByteChangesHash` | release_payload/src/vmi/src/npt_guard.c:110-153 | Changing exactly one byte of a region of any size changes its hash. |
| `RegionHash.ZeroHash` | release_payload/src/vmi/src/npt_guard.c:110-153 | Nine bytes that hash to zero. |
| `RegionHash.HashUpdate` | release_payload/src/vmi/src/npt_guard.c:112-121 | The accumulator loop computes the hash. |
| `RegionHash.HashGuestRegion` | release_payload/src/vmi/src/npt_guard.c:131-153 | Hashing a guest region chunk by chunk is the one-shot hash of its bytes, for every size. |
| `NptGuard.ReportsOnChange` | release_payload/src/vmi/src/npt_guard.c:510-527 | Over every history of tampering and restoring, a poll reports exactly when the hash differs from the baseline and from the last readable poll, if and only if the hash is not a zero following a clean or missing reading. |
| `NptGuard.OneByteEditReported` | release_payload/src/vmi/src/npt_guard.c:510-527 | For a region whose baseline is the hash of its own bytes and which was last seen clean: a one-byte edit is reported if and only if the edited region does not hash to zero, and without an edit there is no report. |
| `NptGuard.ZeroHashMissed` | release_payload/src/vmi/src/npt_guard.c:510-527 | A region one byte away from those nine bytes can be edited into them unreported, however often it is polled. |
| `NptGuard.UntouchedReportedIff` | release_payload/src/vmi/src/npt_guard.c:271-299 | A region freshly baselined and not touched since is reported if and only if it carries the name of the system call table over bytes whose hash is neither that table's nor zero: such a region is baselined on the table but polled on its own bytes. |
| `NptGuard.UntouchedReported` | release_payload/src/vmi/src/npt_guard.c:271-299 | A blank region of that name beside a table that is not blank is such a case. |
| `NptGuard.MismatchHasEntry` | release_payload/src/vmi/src/npt_guard.c:445-466 | Two tables with different hashes differ in an entry. |
| `NptGuard.TableReportShowsEntry` | release_payload/src/vmi/src/npt_guard.c:510-533 | When a region at the table's address and of its size has the clean copy's hash for its baseline, no report of it, whose table could be read, is without an entry. |
| `NptGuard.BaselineIsCleanIff` | release_payload/src/vmi/src/npt_guard.c:247-283 | Over every run of additions, snapshots and polls: a watched region named as the table has the clean copy's hash for its baseline if and only if the last copy, taken for whatever region or torn by a failed read, hashes like the last one taken for it. |
| `NptGuard.RetakenCopyHidesEdit` | release_payload/src/vmi/src/npt_guard.c:247-283 | The table is guarded, then edited, then a second region of that name is guarded, which copies the table anew: the poll reports the first region, without a single entry. |
| `NptGuard.NoDiffsIff` | release_payload/src/vmi/src/npt_guard.c:455-465 | No entry is reported if and only if the copy and the table are equal byte by byte. |
| `NptGuard.ReportSyscallTableDiffs` | release_payload/src/vmi/src/npt_guard.c:455-465 | The reported entries are exactly the differing ones, in order, and there is none if and only if the tables are equal. |
| `NptGuard.Guard.ReportTableDiffs` | release_payload/src/vmi/src/npt_guard.c:445-466 | The report compares the clean copy with the table as it is in guest memory now, and is missing only without a copy, without an address, or when the read fails. |
| `NptGuard.ArmRegion` | release_payload/src/vmi/src/npt_guard.c:358-374 | Where the loop ends, the pages made read-only are exactly those it is meant to cover, ascending; for a region below the last page of the address space these are the pages that hold a byte of it. |
| `NptGuard.ArmingEndsIff` | release_payload/src/vmi/src/npt_guard.c:363-370 | The loop comes to an end if and only if the region's end leaves room for one more page; otherwise its 64-bit page counter wraps forever. |
| `NptGuard.ArmedIffFound` | release_payload/src/vmi/src/npt_guard.c:358-374 | Wherever arming ends, wrapping regions included, the armed pages are exactly the pages the fault path finds. |
| `NptGuard.CheckBounds` | release_payload/src/vmi/src/npt_guard.c:577-600 | The first region whose page test holds decides, as a direct or a collateral hit; a miss means none does. |
| `NptGuard.TestsAre` | release_payload/src/vmi/src/npt_guard.c:577-600 | For a region below the last page of the address space the masked, wrapping tests mean membership of its pages and its bytes. |
| `NptGuard.AllBytesFoundIff` | release_payload/src/vmi/src/npt_guard.c:577-600 | The page test finds every byte of a non-empty region, wrapping or not, if and only if the region stays below the last page of the address space. |
| `NptGuard.HitIffArmed` | release_payload/src/vmi/src/npt_guard.c:577-600 | For every table on which arming ends, the bounds search misses an address exactly when no region arms its page, and a direct hit is on a guarded byte. |
| `NptGuard.DirectIffNotShadowed` | release_payload/src/vmi/src/npt_guard.c:577-600 | For every table of regions and every address: a collateral hit means the address is shadowed by a region up to there, and a direct hit that its byte is seen and not shadowed. |
| `NptGuard.SeenIsGuarded` | release_payload/src/vmi/src/npt_guard.c:577-600 | With regions below the last page of the address space, the bytes the fault path sees are the guarded ones. |
| `NptGuard.DisjointPagesNotShadowed` | release_payload/src/vmi/src/npt_guard.c:577-600 | Regions that share no page hide no guarded byte from each other. |
| `NptGuard.ShadowingHappens` | release_payload/src/vmi/src/npt_guard.c:577-600 | Two regions on one page: a guarded byte of the second counts as collateral of the first. |
| `NptGuard.Guard.AddRegion` | release_payload/src/vmi/src/npt_guard.c:179-199 | A region is added unless it is empty or sixteen exist, with no valid baseline. |
| `NptGuard.Guard.Snapshot` | release_payload/src/vmi/src/npt_guard.c:247-299 | A baseline is the hash of the bytes watched as they are in memory now: the region's, or the system call table of a region so named, which is copied as well. It fails only for bytes outside memory or a transfer that gave up; then no region changes, and an existing copy is what the read left of it. |
| `NptGuard.Guard.ProtectDynamic` | release_payload/src/vmi/src/npt_guard.c:548-563 | A region is added unless it is empty or sixteen exist; success leaves it with a baseline of the bytes it watches, failure without one. A region named as the table replaces the clean copy. |
| `NptGuard.PollRegion` | release_payload/src/vmi/src/npt_guard.c:510-542 | A poll reads the true hash of the region, reports by the poll rule and keeps the report state that goes with it; an unreadable or unbaselined region is left alone. |
| `NptGuard.Guard.HandleEvents` | release_payload/src/vmi/src/npt_guard.c:489-546 | At most every half second each region is read, and its report and new state follow the poll rule on a true reading of memory; a report on the system call table lists exactly the entries that differ from the clean copy, at least one while the region's baseline is that copy's hash. |
| `Drawbridge.NonceStable` | release_payload/src/vmi/src/heki_server.c:65-127 | Over every run the nonce, once drawn, never changes. |
| `Drawbridge.NonceMeansRegistered` | release_payload/src/vmi/src/heki_server.c:65-127 | The nonce is set exactly when some registration has succeeded. |
| `Drawbridge.NonceRecovers` | release_payload/src/vmi/src/heki_server.c:99-105 | The nonce is the random number mixed with the magic, from which it can be recovered, except that 1 stands in for 0. |
| `Drawbridge.AuthorisationHasIntent` | release_payload/src/vmi/src/cpuid_handler.c:12-36 | Whatever is authorised at any time stems from one accepted intent, neither replaced nor used since. |
| `Drawbridge.AdmittedHasOwnIntent` | release_payload/src/vmi/src/npf_handler.c:181-293 | Every admitted hostile write has its own accepted intent, from the kernel's tables, after a successful registration. |
| `Drawbridge.IntentsNotReused` | release_payload/src/vmi/src/npf_handler.c:181-293 | Between two admitted writes there is an accepted intent. |
| `Drawbridge.AdmittedBounded` | release_payload/src/vmi/src/npf_handler.c:181-293 | Admitted writes never outnumber accepted intents, with one to spare while an authorisation is open. |
| `Drawbridge.AdmittedIffKernelIntent` | release_payload/src/vmi/src/npf_handler.c:239-266 | Over every run and whoever writes: a hostile write is admitted if and only if an intent is open and came from the kernel's tables, which the handler passes for every fault. |
| `Drawbridge.WriterNotConsulted` | release_payload/src/vmi/src/npf_handler.c:239-266 | One address space registers and announces, another writes: the write is admitted if and only if the announcing one is the kernel's, so another writer's write can be, and the announcer's own need not be. |
| `Drawbridge.WriteSignalledIff` | release_payload/src/vmi/src/npf_handler.c:81-125 | With the bridge closed, for every table of regions: a write is signalled if and only if its address is not shadowed and the staging override does not cover it by the name of the region that owns the byte or by the table; as malicious if and only if it is in the system call table or the first region on whose pages it lies owns the byte and is critical. |
| `Drawbridge.ReadsIgnored` | release_payload/src/vmi/src/npf_handler.c:81-92 | A read gets no response and changes nothing. |
| `Drawbridge.CriticalByteUnderstated` | release_payload/src/vmi/src/npf_handler.c:81-125 | A byte that a region owns and a critical one after it owns too: a write there is signalled, but not as malicious. |
| `Drawbridge.GuardedWriteSignalled` | release_payload/src/vmi/src/npf_handler.c:81-125 | With regions below the last page of the address space, a signalled write to a guarded byte is attributed to a region that owns the byte. |
| `Drawbridge.Bridge.constructor` | release_payload/src/vmi/src/cpuid_handler.c:9-10 | No nonce and no authorisation at the start. |
| `Drawbridge.Bridge.CpuidIntercept` | release_payload/src/vmi/src/cpuid_handler.c:12-26 | The handler makes the protocol step of a CPUID exit, so all results over runs hold of it. |
| `Drawbridge.Bridge.HandleClient` | release_payload/src/vmi/src/heki_server.c:65-127 | The handler makes the protocol step of a client message. A successful registration is answered with the active nonce, never 0, and outside the mock case leaves a new region at the translation of its address, with a baseline of its bytes, or of the system call table if the client named it so; a failed one is answered with 0. |
| `Drawbridge.Bridge.ProcessFault` | release_payload/src/vmi/src/npf_handler.c:181-293 | Classification, admission by the kernel's tables, and signalling make the protocol step of a fault, and an admission closes the bridge. |
| `CallGraph.FindSymAtAddr` | legacy_v1/sentinel-cc/src/runtime/loader.c:776-796 | The two loops compute the resolution function, whose result always covers the address. |
| `CallGraph.ResolvedIff` | legacy_v1/sentinel-cc/src/runtime/loader.c:776-796 | For every sorted table, overlapping or not: an address resolves if and only if it is covered by a symbol that the bisection looks at, which depends on positions alone, or by the one before an empty symbol that starts at the address. |
| `CallGraph.ResolveComplete` | legacy_v1/sentinel-cc/src/runtime/loader.c:776-796 | The nearest symbol at or below an address is never missed, and a symbol that alone covers the address is the result. |
| `CallGraph.UnresolvedMeansOverlap` | legacy_v1/sentinel-cc/src/runtime/loader.c:776-796 | A covered address that goes unresolved lies past the end of a symbol that starts inside the covering one. |
| `CallGraph.NonOverlappingResolves` | legacy_v1/sentinel-cc/src/runtime/loader.c:776-796 | Without overlap every covered address resolves to the symbol covering it. |
| `CallGraph.VariantIff` | legacy_v1/sentinel-cc/src/runtime/loader.c:1077-1098 | A name is a variant of an imported one if and only if it holds the name without its leading underscores, of two characters or more, and starts with it or with two underscores. |
| `CallGraph.FindSymByName` | legacy_v1/sentinel-cc/src/runtime/loader.c:798-805 | The first symbol of a name is found, and none only if there is none. |
| `CallGraph.OverlapCanMiss` | legacy_v1/sentinel-cc/src/runtime/loader.c:776-796 | With overlapping symbols a covered address can go unresolved: a concrete table. |
| `CallGraph.DisplacementIs` | legacy_v1/sentinel-cc/src/runtime/loader.c:1130-1131 | Decoding the operand of a call and encoding a signed 32-bit number, lowest byte first, undo each other. |
| `CallGraph.EdgeIff` | legacy_v1/sentinel-cc/src/runtime/loader.c:1125-1136 | In a table without overlap, one symbol has an edge to another if and only if its code holds E8 or E9 followed by the distance from the end of that instruction to an address of the other, modulo 2^64. |
| `CallGraph.BytesAtIs` | legacy_v1/sentinel-cc/src/runtime/loader.c:1117-1121 | The code of a symbol is the bytes of the first section that holds its address, to the end of the symbol or of the section. |
| `CallGraph.Worklist.constructor` | legacy_v1/sentinel-cc/src/runtime/loader.c:1012-1030 | The queue starts empty with nothing marked. |
| `CallGraph.Worklist.Push` | legacy_v1/sentinel-cc/src/runtime/loader.c:1135-1139 | A symbol is queued once, and only while there is room; marks and queue agree. |
| `CallGraph.SeedQueue` | legacy_v1/sentinel-cc/src/runtime/loader.c:1032-1100 | The symbols of imported and essential names and the variants of imported names make up level 0. |
| `CallGraph.ScanCalls` | legacy_v1/sentinel-cc/src/runtime/loader.c:1117-1143 | Scanning a body queues the target of every call and jump one level further, unless the queue is full. |
| `CallGraph.Reachable` | legacy_v1/sentinel-cc/src/runtime/loader.c:1028-1146 | From the imported names on: every symbol found is within 25 call edges of a seed and found once; unless the queue fills, every symbol within 24 is found. |
| `CallGraph.StoppedComplete` | legacy_v1/sentinel-cc/src/runtime/loader.c:1102-1146 | A search that stopped has queued everything within the depth limit, each symbol at or before its distance. |
| `CallGraph.SymbolSites` | legacy_v1/sentinel-cc/src/runtime/loader.c:1148-1162 | Exactly the syscall instructions of a symbol are added, up to the capacity. |
| `CallGraph.CollectSites` | legacy_v1/sentinel-cc/src/runtime/loader.c:1148-1162 | Every reported site is a syscall instruction of a found symbol and of the text, and below capacity none is missing. |
| `CallGraph.SymbolSiteInText` | legacy_v1/sentinel-cc/src/runtime/loader.c:646-662 | Filtering by call graph never allows a site that a scan of the whole text would not. |
| `CallGraph.BytesInSection` | legacy_v1/sentinel-cc/src/runtime/loader.c:853-866 | The bytes fetched for a symbol are a piece of one section at the symbol's own address. |
| `ModuleTrie.KeyBitIs` | legacy_v1/sentinel-cc/src/runtime/loader.c:1469-1471 | After the byte swap, key bit k as the trie compares it is address bit 63 - k. |
| `ModuleTrie.PrefixIsQuotient` | legacy_v1/sentinel-cc/src/kernel/sentinel.bpf.c:227-232 | Matching the first n key bits is agreeing above the last 64 - n address bits. |
| `ModuleTrie.LookupIsBlock` | legacy_v1/sentinel-cc/src/kernel/sentinel.bpf.c:227-232 | A longest-prefix lookup of a full address returns the entry of its 1 MB block. |
| `ModuleTrie.EntryIsLookup` | legacy_v1/sentinel-cc/src/kernel/sentinel.bpf.c:227-232 | The entry of the block is what a longest-prefix lookup returns, or nothing without one. |
| `ModuleTrie.BlockKeyInjective` | legacy_v1/sentinel-cc/src/runtime/loader.c:1469-1471 | Different blocks have different keys. |
| `ModuleTrie.VmaMap.constructor` | legacy_v1/sentinel-cc/src/runtime/loader.c:1461-1478 | The trie starts empty. |
| `ModuleTrie.VmaMap.Update` | legacy_v1/sentinel-cc/src/runtime/loader.c:1473-1474 | An update changes the entry of one block, and is refused only for a new block in a full trie. |
| `ModuleTrie.VmaMap.PopulateModule` | legacy_v1/sentinel-cc/src/runtime/loader.c:1461-1478 | The loop sets one prefix per block of the module, all of them if there is room, under the module's own base or, for the dynamic linker, the C library's. Refused blocks keep the trie from being complete. |
| `ModuleTrie.CoveringEndsIff` | legacy_v1/sentinel-cc/src/runtime/loader.c:1466-1475 | The loop comes to an end if and only if the module's end leaves room for one more block. |
| `ModuleTrie.LookupIsLastCovering` | legacy_v1/sentinel-cc/src/kernel/sentinel.bpf.c:227-245 | After any sequence of loads, a lookup returns the last module whose blocks cover the address, and nothing if none does; a trie that ran full may return nothing, but never another module. |
| `ModuleTrie.ModuleResolves` | legacy_v1/sentinel-cc/src/kernel/sentinel.bpf.c:227-245 | A module whose blocks are not reused later resolves all its addresses, and base plus offset is the address; only a trie that ran full may give nothing. |
| `SyscallPolicy.ParseSection` | legacy_v1/sentinel-cc/src/runtime/loader.c:443-461 | The parsed rules are the entries with a site, in order, the first 4096 of them. |
| `SyscallPolicy.DecodeEncode` | legacy_v1/sentinel-cc/src/runtime/loader.c:2463-2468 | The kernel permits a number under an encoded rule exactly when the rule is a wildcard or names that number modulo 2^32. |
| `SyscallPolicy.PopulatePolicy` | legacy_v1/sentinel-cc/src/runtime/loader.c:2459-2477 | The policy map is the rules laid over each other, and all are loaded. |
| `SyscallPolicy.PolicyMapIsLast` | legacy_v1/sentinel-cc/src/runtime/loader.c:2459-2477 | An offset is in the policy map exactly when some rule names it, with the value of the last such rule. |
| `SyscallPolicy.ParseCfiSection` | legacy_v1/sentinel-cc/src/runtime/loader.c:985-993 | The caller entries are those with a site, in order, the first 4096 of them. |
| `SyscallPolicy.PopulateCfi` | legacy_v1/sentinel-cc/src/runtime/loader.c:3008-3050 | The caller map is the entries laid over each other within its capacity of 1024 sites. |
| `SyscallPolicy.CfiMapCompleteIff` | legacy_v1/sentinel-cc/src/runtime/loader.c:3008-3050 | Every site named has an entry in the caller map if and only if at most 1024 different sites are named. |
| `SyscallPolicy.CfiMapKeeps` | legacy_v1/sentinel-cc/src/runtime/loader.c:3008-3050 | The sites in the caller map are exactly those first named while fewer than 1024 others were. |
| `SyscallPolicy.CfiMapIsLast` | legacy_v1/sentinel-cc/src/runtime/loader.c:3008-3050 | A site in the caller map has the range of its last entry. |
| `SyscallPolicy.LastRuleRelocated` | legacy_v1/sentinel-cc/src/kernel/sentinel.bpf.c:246-247 | Matching module-relative offsets is matching run-time addresses, for every load base. |
| `SyscallPolicy.NotDeniedIff` | legacy_v1/sentinel-cc/src/kernel/sentinel.bpf.c:184-410 | A main-module call is not denied if and only if the hook is learning, or its site is the run-time address of a rule, the last such rule is a wildcard or names the number, the caller is in the range of the last entry for the site if the caller map keeps it, and thread limit and shadow stack agree where they are on. For every load base and any number of caller entries. |
| `SyscallPolicy.NumberAllowedIff` | legacy_v1/sentinel-cc/src/runtime/loader.c:443-461 | The rule the kernel finds allows a number if and only if the last entry loaded for the run-time address has 0 or less, or one more than the number; loaded are the entries with a site that fewer than 4096 others precede. |
| `SyscallPolicy.CallerAllowedIff` | legacy_v1/sentinel-cc/src/runtime/loader.c:3008-3050 | The caller map allows a caller if and only if its site was not first named after 1024 others, or the caller lies in the function of the last entry loaded for the site. |
| `SyscallPolicy.UnenforcedDeniedIff` | legacy_v1/sentinel-cc/src/kernel/sentinel.bpf.c:188-215 | A call the hook does not look at is denied, for an untracked process, if and only if enforcement is system-wide and the number is not on the fallback list; for a tracked one, if and only if it has no registers and its cgroup is enforced. |
| `SyscallPolicy.EndToEnd` | legacy_v1/sentinel-cc/src/kernel/sentinel.bpf.c:184-410 | The same from the entries of the .sentinel and .sentinel_cfi sections and the modules loaded to the decision, in terms of the entries alone: the last loaded for the site allows the number, and the caller is in the function of the last one for it if the caller map keeps it. The hook finds the main module by looking the site up in the trie the loader filled, where it is missing only if the trie ran full. |
| `SyscallPolicy.BadCallerAllowed` | legacy_v1/sentinel-cc/src/runtime/loader.c:3008-3050 | The loader's own steps on 1025 caller entries and a main module: the last site is not kept, and a call without any caller passes there although its entry demands one. |
| `AuditJson.NumberRoundTrip` | legacy_v1/sentinel-cc/src/runtime/loader.c:1650-1664 | A number printed in base 10 or 16 is read back, whatever follows it. |
| `AuditJson.KeyFound` | legacy_v1/sentinel-cc/src/runtime/sentinel_tui.c:152-199 | The first occurrence of a quoted key is its own member: no value and no other key can match it. |
| `AuditJson.KeyAbsent` | legacy_v1/sentinel-cc/src/runtime/sentinel_tui.c:152-199 | A key that is not printed is not found anywhere in the line. |
| `AuditLine.StrField` | legacy_v1/sentinel-cc/src/runtime/sentinel_tui.c:152-169 | A quoted member is read back as its text, cut to the buffer. |
| `AuditLine.UintField` | legacy_v1/sentinel-cc/src/runtime/sentinel_tui.c:171-186 | A printed 32-bit number is read back. |
| `AuditLine.LongField` | legacy_v1/sentinel-cc/src/runtime/sentinel_tui.c:188-199 | A printed signed 64-bit number is read back. |
| `AuditLine.AlwaysPrinted` | legacy_v1/sentinel-cc/src/runtime/loader.c:1646-1665 | Every event fits the 512-byte buffer, so none is dropped. |
| `AuditLine.RoundTrip` | legacy_v1/sentinel-cc/src/runtime/sentinel_tui.c:201-216 | For every event, parsing the printed line recovers the action, the process, the thread, the number, the time, and either the return value or address, offset and module. |
| `AuditLine.PrintedText` | legacy_v1/sentinel-cc/src/runtime/loader.c:1646-1665 | The printed line is the object of the documented members in order: quoted time, action, and addresses in hexadecimal, bare numbers, separated by commas. |
| `AuditLine.ForeignTexts` | legacy_v1/sentinel-cc/src/runtime/sentinel_tui.c:201-216 | Whatever prints a line, action, addresses and time are read up to 15, 19 and 31 characters. |
| `AuditLine.LineDeterminesEvent` | legacy_v1/sentinel-cc/src/runtime/loader.c:1593-1665 | Two events with the same line agree in all they carry. |
| `AuditLine.PrintedOneLine` | legacy_v1/sentinel-cc/src/runtime/loader.c:1646-1674 | A printed event is one line that fits the buffer. |
| `Dashboard.TuiEvent.Parse` | legacy_v1/sentinel-cc/src/runtime/sentinel_tui.c:201-216 | The event is filled in place from the line, and cleared if the line has no action. |
| `Dashboard.Screen.GetStats` | legacy_v1/sentinel-cc/src/runtime/sentinel_tui.c:136-149 | A row is found or added while there is room, and a fresh row is right because its system call was never counted. |
| `Dashboard.Screen.UpdateStats` | legacy_v1/sentinel-cc/src/runtime/sentinel_tui.c:218-275 | The ring keeps the last 256 records; each of the fifteen counters shows how many records of the log are of its kinds, and each row of the system call table counts the whole log, within 64 bits. |
| `Dashboard.TableNext` | legacy_v1/sentinel-cc/src/runtime/sentinel_tui.c:218-268 | One row a system call, each right for the whole log; while there is room, every system call counted has one. |
| `Dashboard.Screen.Recent` | legacy_v1/sentinel-cc/src/runtime/sentinel_tui.c:389-392 | The k-th most recent record is read from the slot that holds it. |
| `Dashboard.Screen.Run` | legacy_v1/sentinel-cc/src/runtime/sentinel_tui.c:440-462 | From the bytes of the stream: the log grows by the records of the reads that parse, in order, however the line buffer cuts them. |
| `Dashboard.ChunksAreLines` | legacy_v1/sentinel-cc/src/runtime/sentinel_tui.c:440-443 | The reads of a printed stream are the printed lines, one by one. |
| `Dashboard.LogIsTrace` | legacy_v1/sentinel-cc/src/runtime/sentinel_tui.c:443-462 | The log of a printed trace, from the bytes of the stream, is the trace, record by record. |
| `Dashboard.NameKind` | legacy_v1/sentinel-cc/src/runtime/sentinel_tui.c:218-268 | The dashboard tells the event codes apart by the names the loader prints. |
| `Dashboard.TotalsAreEvents` | legacy_v1/sentinel-cc/src/runtime/sentinel_tui.c:218-268 | For any of the counters: through printing, the line buffer and parsing, it shows how many kernel events of its kinds there were. |
| `Dashboard.CountersAreEvents` | legacy_v1/sentinel-cc/src/runtime/sentinel_tui.c:218-268 | After the printed stream of a trace each of the fifteen counters is the number of kernel events with its codes, within 64 bits. |
| `Dashboard.RowsAreEvents` | legacy_v1/sentinel-cc/src/runtime/sentinel_tui.c:218-268 | A row of the system call table counts the allowed, blocked and returning events of its number. |
| `Dashboard.SkipIndentIs` | legacy_v1/sentinel-cc/src/runtime/sentinel_tui.c:444-447 | Exactly the leading blanks and tabs of a line are skipped. |
| `Dashboard.ChunksMean` | legacy_v1/sentinel-cc/src/runtime/sentinel_tui.c:440-443 | The reads of the line buffer are the stream, cut: nothing is lost, each has up to 4095 characters, and all but the last end at a newline or are full. |
| `SpiLockdown.Pr0DecodesToMe` | sentinel-smm/src/SentinelSpiLockdown.h:137-171 | For every flash descriptor the packed range decodes to exactly the ME region, protected against writes only. |
| `SpiLockdown.Chipset.EnforceSpiLockdown` | sentinel-smm/src/SentinelSmmDxe.c:57-296 | The driver succeeds exactly when the chipset base is enabled, and then leaves the locked registers and, with S3 support, the accepted records. |
| `SpiLockdown.LockedDownIs` | sentinel-smm/src/SentinelSmmDxe.c:87-180 | After the writes the latch is set, and the range is the driver's unless the latch was set before. |
| `SpiLockdown.ProtectedIff` | sentinel-smm/src/SentinelSmmDxe.c:87-180 | The ME region is protected after the lockdown if and only if the platform had not latched a different range before. |
| `SpiLockdown.RegistersAt` | sentinel-smm/src/SentinelSpiLockdown.h:137-171 | The range and status registers are at 0x74 and 0x04 of the SPI block, 0x3800 into the 16K block of the chipset base, whose bit 0 enables it. |
| `SpiLockdown.LockdownControls` | sentinel-smm/src/SentinelSmmDxe.c:200-203 | After the lockdown flash writes are off, the lock is armed and writes are confined to SMM; the other control bits are as before. |
| `SpiLockdown.LockdownStatus` | sentinel-smm/src/SentinelSmmDxe.c:150-180 | The lockdown changes no status bit but the latch. |
| `SpiLockdown.ReplayControls` | sentinel-smm/src/SentinelSmmDxe.c:230-240 | A resume leaves the recorded controls if their record was accepted, and none otherwise. |
| `SpiLockdown.ArmedLastsIff` | sentinel-smm/src/SentinelSmmDxe.c:200-240 | The lock stays armed through every later run if and only if S3 recording is present and the record of the controls was accepted. |
| `SpiLockdown.ReplayHolds` | sentinel-smm/src/SentinelSmmDxe.c:226-292 | A resume restores the range exactly when its record was accepted and the latch exactly when its record was. |
| `SpiLockdown.RunHolds` | sentinel-smm/src/SentinelSmmDxe.c:226-292 | With both records, a protected ME region stays so after every sequence of register writes and resumes. |
| `SpiLockdown.LockdownLastsIff` | sentinel-smm/src/SentinelSmmDxe.c:226-292 | The ME region stays protected through every later run if and only if S3 recording is present, the range and latch records were accepted, and the platform had not latched a different range before. |
| `SpiLockdown.OrderMatters` | sentinel-smm/src/SentinelSmmDxe.c:255-292 | Replaying the latch before the range would leave the region unprotected. |

## Left out

- IntentPass.Module.Run: start calls in unreachable blocks are excluded, because the pass walks from the block's node in the dominator tree and such a block has none; PHI nodes at the front of a frontier block and the packing of the `.tca_got` table are not modelled.
- GuestMemory.Session.ReadPhysical: only slots of the remote process are modelled; direct mappings and the `/dev/mem` fallback are not.
- PageWalk.ReadVirtual: permission bits, 5-level paging and reserved bits are not looked at, as in the code.
- NptGuard.ArmRegion: requires what `ArmingEndsIff` shows the loop needs to end at all.
- NptGuard.HitIffArmed: for tables on which arming ends.
- Drawbridge.GuardedWriteSignalled: for regions below the last page of the address space, which `AllBytesFoundIff` shows is exactly when all their bytes can be seen; `WriteSignalledIff` has no such condition.
- NptGuard.Guard.HandleEvents: re-protecting the pages of a reported region and the faults raised for the entries of a reported table are not modelled.
- NptGuard.Guard.ProtectDynamic: arming the new region's pages is `ArmRegion`, not repeated here.
- Drawbridge.Bridge.ProcessFault: whether the patch override is set is an input; re-arming after a single step is not modelled.
- CallGraph.SymbolSites: a site is the plain sum of symbol address and offset, not reduced to 64 bits.
- CallGraph.Reachable: the same search for other libraries (`loader.c:1242-1288`) is the same loop and is not repeated.
- ModuleTrie.VmaMap.PopulateModule: requires what `CoveringEndsIff` shows the loop needs to end at all.
- SyscallPolicy.PopulateCfi: the fallback `setup_cfi_policy` (`legacy_v1/sentinel-cc/src/runtime/loader.c:3058-3060`), which fills the caller map when the `.sentinel_cfi` section is missing or names no site, is not modelled; function sizes are taken as read from the symbol table.
- SyscallPolicy.EndToEnd: where that fallback runs, the caller map is not the one the result is about.
- SyscallPolicy.NotDeniedIff: for the main module; what the hook does on denial (signal, audit event) and the learning map are not modelled.
- AuditLine.RoundTrip: the formatted time is taken as any text of up to 31 characters without quotes and newlines; `strftime` itself is not modelled.
- PrivilegeBaseline.CacheAgreesWithRecord: for fewer than 2^32 scans; `CacheOverRuns` and `ExactUnlessWrapped` say what holds after that, and `EvictedAfterWrap` why this does not.
- SpiLockdown.LockdownLastsIff: on resume the firmware is taken to restore the chipset base to its boot value; other status bits are plain storage.
- ELF, OpenSSL, TPM, signing and `/proc` parsing, ptrace and BPF map system calls: foreign libraries and operating system plumbing.
- AlertBridge.Bridge.EmitAlert: the copy of each alert to the stream socket is not modelled.
- Stream sockets, reconnection backoff and the JSON escaping of alerts in the bridge; QMP and the heartbeat in the setup code.
- Fork tracking and the ring buffer of the kernel hook; rendering of the dashboard.
- The I/O trap handler and policy table of the firmware driver, the MEI tools, the arm64 port and the prototypes: small tables and straight-line code.
