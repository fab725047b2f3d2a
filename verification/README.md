# Verification of the firewall's control plane and datapath

This project models the stateful parts of the repository in Dafny and proves what they promise over
whole runs. `dafny verify dfyconfig.toml` checks everything.

Ten components are modelled. Those that the source updates in place are classes, with every method
proved against a function on values; rule selection and session keys are functions, as they are in
the source. The laws are lemmas about those functions and about runs, which are sequences of states
and events related step by step.

| component | files | main results |
|---|---|---|
| Two-node high availability (`ha.py`) | `HaNode`, `HaRuns` | under lost, late, repeated and reordered heartbeats a node yields only to a peer really ahead of it; split brain ends, and the first claim heard decides how each node leaves it; the tokens of two ACTIVE periods increase exactly when restarts lost fewer generations than were gained |
| SNAT port pools (`snat_state.py`) | `SnatPool`, `SnatRuns`, `MasqueradeAdmission` | first free port in cyclic order, none exactly when full; conservation; every port is met between two uses of one; a masquerade rule is refused exactly when the next port would be |
| Rule selection (`acl.rs`, `policy.c`) | `PriorityMatch`, `AclEngine`, `PolicyTable` | stable sort with first match and single-pass scan pick the same rule, and exactly when they differ |
| Packet pipeline (`pipeline.rs`, `conntrack.rs`, `offload.rs`) | `Pipeline`, `PipelineRuns`, `OffloadPath` | the offload shortcut never changes a decision; each flow is offloaded once, at an exact packet; packets are conserved; exactly which offloads make the hardware forward what the rules deny |
| Session keys (`offload_client.rs`, `session_table.rs`) | `Text`, `SessionKeys` | key strings collide exactly when the two addresses of each, joined by a colon, read the same; those of flows exactly when they differ only in protocols without a wire number |
| Offload daemon (`grpc_server.rs`, `session_table.rs`, `doca_flow.rs`, `aging.rs`) | `OffloadDaemon`, `DaemonService`, `Aging` | flushes never take the backing of what stays; exactly which events of a run orphan hardware entries; a sweep evicts exactly the idle |
| Rules and filters of tc-firewall (`main.py`, `tc_manager.py`) | `TcFilters`, `RuleSignatures`, `RuleStore`, `RuleTable` | exactly which requests share a signature; looking one up agrees with scanning the rules; the two ports mirror each other, and exactly which failures break the mirror, at which packets |
| NAT of tc-firewall (`nat_manager.py`) | `NatManager` | after a removal every packet is translated as if the rule had never been added, exactly when the removal's commands bring back what remains |
| Tenants (`main.py`, `tenants.py`) | `FirewallService`, `FirewallEndpoints` | quotas and ownership over every run; exactly which requests take a rule or a NAT entry away |
| Admin store (`store.rs`) | `AdminStore`, `AdminRuns` | one success per generation; a push installs exactly what it was given; every policy's firewall exists exactly as long as none with policies is deleted |

Modelling conventions. Clocks, fresh identifiers, handles drawn by the kernel, and the outcome of
writing a file or running a command are arguments of the operations that consult them. A Python
dictionary whose order matters is a map with the sequence of its keys in insertion order; a loop over
a hash table visits its keys in some order. Counters do not wrap. A hashed signature is the
text that is hashed. Time is a real number. The network of the two HA nodes is the set of all heartbeats ever
sent: losing, delaying, repeating and reordering are all choices of which one to deliver next. What a
heartbeat proves of its sender is stated for runs in which no restart loses a generation
(`IsPersistedRun`); the ledger of generations is stated for all runs.

Where the code and its own documentation differ, the code is followed:

- `ha.py` says the loser of a split brain goes to STANDBY. It does unless a stale heartbeat carrying
  its own generation reaches it before any above; then, and only then, it is fenced
  (`LoserStandsByExactly`, `LoserIsFenced`).
- `ha.py` says the demotion callback is set by `main.py`; no file under `src` sets it. In the model
  a node has one or not, and without one it never flushes (`FlushesCountDemotions`).
- `aging.rs` says a session is idle when its count has not changed for two consecutive polls; the code
  uses the idle timeout (`EvictsExactlyTheIdle`).
- `store.rs` says `next_generation` returns the new number; it returns the number before the bump.
- `main.py` says a new rule is scoped to the requesting tenant; the idempotency-key index is shared by
  all tenants, and so is a signature text whose parts are joined with bars (`AnswerIsOwnExactly`,
  `AnswerIsAnotherTenants`, `BarMixesTenantsUp`).
- `grpc_server.rs` reports a refused reverse entry as rolled back without looking at the outcome; a
  forward entry that did not go is left without a session (`FailedRollbackOrphans`).

Some promises hold only under a condition. For each there is a theorem that says exactly when, and a
concrete failing case:

| promise | holds exactly when | fails for |
|---|---|---|
| the loser of a split brain stands by | `LoserStandsByExactly` | `LoserIsFenced` |
| a later ACTIVE period has a greater fencing token | `TokensIncreaseExactly`, `RestartLosesExactly` | `LostWriteReusesToken` |
| the hardware forwards only what the rules do not deny | `HardwareFollowsRulesExactly`, `OffloadsAllowedExactly` | `OneWayRuleIsOpenedBothWays` |
| the hardware holds no orphan | `HardwareHoldsNoOrphansExactly` | `ReprogrammingOrphans`, `FailedRollbackOrphans` |
| the rule engines agree | `EnginesAgreeExactly` | `CeilingRuleIsLost` |
| key strings are distinct | `KeyStringsCollideExactly`, `FlowStringsCollideExactly` | `ColonsCollide`, `OtherProtocolsCollide` |
| an add is answered with the tenant's own rule | `AnswerIsOwnExactly` | `AnswerIsAnotherTenants`, `BarMixesTenantsUp` |
| a removal re-installs what was added | `RemoveRendersRestExactly` | `EmptyProtocolChangesOnReapply`, `FailedReapplyLosesRule` |
| the ports hold the filters of the live rules | `RunInstalledExactly` | `PartialInstallBreaksMirror`, `UnknownHandleBreaksMirror` |
| every policy's firewall exists | `RunRootedExactly` | `DeletedFirewallKeepsPolicy` |
| the ports mirror each other at a packet | `PartialInstallMirrorsExactly`, `PartialDeleteMirrorsExactly` | `PartialInstallBreaksMirror`, `UnknownHandleBreaksMirror` |

## Model

| member | source | states |
|---|---|---|
| `HaNode.HAManager.ReceiveHeartbeat` | tc-firewall/src/ha.py:122-137 | on the text of the role: an ACTIVE node that hears ACTIVE above its generation yields, at it is fenced, below it answers that the peer must; any other heartbeat leaves the role alone, and an unknown text is rejected after time and generation were stored |
| `HaNode.HAManager.HeartbeatToSend` | tc-firewall/src/ha.py:275-290 | generation and role text of the node |
| `HaNode.RoleTextReads` | tc-firewall/src/ha.py:28-32 | the text a node sends is read as its role |
| `HaNode.HAManager.ResolveSplitBrain` | tc-firewall/src/ha.py:139-174 | higher generation stays, lower demotes, equal fences |
| `HaNode.HAManager.PromoteNow` | tc-firewall/src/ha.py:176-202 | only a node that is not ACTIVE moves to the next generation, whatever the write to disk does |
| `HaNode.HAManager.DemoteByOperator` | tc-firewall/src/ha.py:204-231 | a node not already in STANDBY enters it and flushes |
| `HaNode.HAManager.MonitorOnce` | tc-firewall/src/ha.py:292-306 | one pass of the monitor loop |
| `HaRuns.GenerationLedger` | tc-firewall/src/ha.py:80-96 | over any run a node's generation is what it was, plus its promotions, minus what its restarts lost |
| `HaRuns.TokensIncreaseExactly` | tc-firewall/src/ha.py:176-196 | two ACTIVE periods of a node carry increasing tokens exactly when the restarts in between lost fewer generations than it gained, and the same one exactly when they lost as many |
| `HaRuns.RestartLosesExactly` | tc-firewall/src/ha.py:80-96 | what a restart loses is decided by the write of the last promotion since the process started: nothing if it was written or there was none, else the difference to what it left in the file |
| `HaRuns.RunHasNoFutureHeartbeats` | tc-firewall/src/ha.py:275-290 | in a run whose restarts lose no generation, no heartbeat in flight carries a generation its sender has not reached |
| `HaRuns.DemotedNodeIsBehind` | tc-firewall/src/ha.py:122-174 | in such a run a node that self-demotes on a heartbeat, however stale, is strictly behind its peer's current generation, and calls its callback once, if set |
| `HaRuns.MutualDemotionNeedsTwoPromotions` | tc-firewall/src/ha.py:122-202 | both nodes self-demote in one run only if the first was promoted at least twice in between |
| `HaRuns.FirstClaimDecides` | tc-firewall/src/ha.py:133-174 | while nobody promotes, demotes or restarts, an ACTIVE node's role depends on the first ACTIVE claim from its own generation or above to reach it: fenced by its own, STANDBY by one above, else ACTIVE |
| `HaRuns.LoserStandsByExactly` | tc-firewall/src/ha.py:133-174 | the loser that has heard the winner ends in STANDBY exactly when no heartbeat at its own generation reached it before one above, and otherwise in FENCING |
| `HaRuns.LoserIsFenced` | tc-firewall/src/ha.py:167-174 | a run in which an old heartbeat of the winner, from the loser's generation, fences the loser |
| `HaRuns.SplitBrainResolves` | tc-firewall/src/ha.py:133-174 | once each node hears what the other says in a split brain, the higher generation is the only ACTIVE node and equal generations are both fenced, whatever older heartbeats interleave |
| `HaRuns.FencingNeedsOperator` | tc-firewall/src/ha.py:167-202 | heartbeats and timeouts never leave FENCING |
| `HaRuns.AutoPromotionExactlyAfterSilence` | tc-firewall/src/ha.py:292-308 | the monitor promotes exactly a STANDBY node that has heard from its peer and then nothing for the whole timeout |
| `HaRuns.ActivePeriodsIncrease` | tc-firewall/src/ha.py:176-196 | in a run whose restarts lose no generation, two ACTIVE periods of a node carry strictly increasing tokens |
| `HaRuns.LostWriteReusesToken` | tc-firewall/src/ha.py:80-96 | a run with a failed write and a restart in which two ACTIVE periods carry the same token |
| `HaRuns.FlushesCountDemotions` | tc-firewall/src/ha.py:221-231 | over any run the callback, if set, was called once for every time the node entered STANDBY since it started, and never if not set |
| `HaRuns.StandbyHasFlushed` | tc-firewall/src/ha.py:221-231 | a node found in STANDBY after another role, without a restart, has called its callback in between, if set |
| `HaRuns.SplitBrainHappens` | tc-firewall/src/ha.py:176-202 | promotion ignores the peer, so a run reaches two ACTIVE nodes of equal generation |
| `SnatPool.SNATState.AllocatePort` | tc-firewall/src/snat_state.py:110-159 | the granted port and the whole new table, invariant kept |
| `SnatPool.SNATState.FindAvailablePort` | tc-firewall/src/snat_state.py:269-298 | the two searches find the first free port in cyclic order and move the cursor just after it, or every port is in use |
| `SnatPool.SNATState.ReleasePort` | tc-firewall/src/snat_state.py:161-182 | releases exactly an allocated port |
| `SnatPool.SNATState.ReleaseExpiredPorts` | tc-firewall/src/snat_state.py:184-210 | the nested loops free exactly the expired ports of every pool and count them |
| `SnatPool.SNATState.ExpiredPortsOf` | tc-firewall/src/snat_state.py:195-198 | lists exactly the expired ports of one pool, each once |
| `SnatPool.GrantIsFirstFree` | tc-firewall/src/snat_state.py:110-159 | no port is granted exactly when the pool is full, and then every port is in use; otherwise the first free one in cyclic order from the cursor |
| `SnatPool.ExhaustedExactlyWhenRefused` | tc-firewall/src/snat_state.py:255-260 | a pool reports exhaustion exactly when it exists and would grant no port |
| `SnatPool.SNATState.IsExhaustedNow` | tc-firewall/src/snat_state.py:255-260 | says whether the pool exists and is full |
| `MasqueradeAdmission.RefusedExactlyWhenFull` | tc-firewall/src/nat_manager.py:118-131 | in every run a new masquerade rule is refused for exhaustion exactly when a port of its address was asked for before and the next one would be refused; every port is then in use |
| `MasqueradeAdmission.ReleaseReadmits` | tc-firewall/src/nat_manager.py:127-131 | giving back any port of the address admits the rule |
| `SnatPool.WalkFinds` | tc-firewall/src/snat_state.py:269-298 | walking the circle once finds the first free port or proves there is none |
| `SnatPool.SomePortIsFree` | tc-firewall/src/snat_state.py:119-141 | fewer ports in use than the pool has leave one free |
| `SnatRuns.RunIsWellFormed` | tc-firewall/src/snat_state.py:110-210 | in every run the set and the map of a pool hold the same in-range ports |
| `SnatRuns.PortsAreConserved` | tc-firewall/src/snat_state.py:110-210 | ports in use are those handed out minus those released or expired |
| `SnatRuns.EveryPortVisitedBetweenReuse` | tc-firewall/src/snat_state.py:161-298 | between two hand-outs of one port every other was handed out or found in use |
| `SnatRuns.HeldUntilDue` | tc-firewall/src/snat_state.py:143-205 | a port stays in use, under its own terms, until released or found due |
| `SnatRuns.ExpiryFreesExactlyTheDue` | tc-firewall/src/snat_state.py:190-203 | an expiry pass frees a held port exactly when its timeout has elapsed |
| `PriorityMatch.BestIsWinner` | doca-firewall/src/policy.c:109-155 | keeping the best so far finds the least (priority, insertion order) among the matches |
| `PriorityMatch.SortIsStable` | crates/prism-datapath/src/acl.rs:36-39 | the sort is a sorted permutation that keeps the order within a priority |
| `PriorityMatch.StableSortIsUnique` | crates/prism-datapath/src/acl.rs:36-39 | any sort with those properties gives the same list, so the library's does |
| `PriorityMatch.SortedFirstRuleIsBest` | crates/prism-datapath/src/acl.rs:46-62 | first match after the stable sort is the least (priority, insertion order) |
| `PriorityMatch.CeilingKeepsWinner` | doca-firewall/src/policy.c:109-155 | a scan starting at a ceiling finds the winner if it is below, else nothing |
| `PriorityMatch.DeletingALoserKeepsTheWinner` | doca-firewall/src/policy.c:76-102 | deleting a rule that does not win leaves the winner |
| `AclEngine.CidrIsBlock` | crates/prism-datapath/src/acl.rs:101-106 | comparing under the shifted mask, bit by bit, matches exactly one contiguous block of the size the prefix leaves |
| `AclEngine.EvaluateIsLeastMatch` | crates/prism-datapath/src/acl.rs:36-62 | the verdict is that of the rule of least (priority, position) in the given list whose blocks, port ranges and protocol the tuple lies in, and deny without one |
| `AclEngine.OneRuleDecides` | crates/prism-datapath/src/acl.rs:64-90 | one rule decides exactly the tuples whose source lies in its source block, destination in its destination block, and ports and protocol in its own |
| `AclEngine.MatchesExactly` | crates/prism-datapath/src/acl.rs:64-107 | a rule matches exactly the tuples that agree with every field it gives, blocks taken as ranges of addresses |
| `AclEngine.Engine.EvaluatePacket` | crates/prism-datapath/src/acl.rs:46-62 | the loop with early return gives the first rule that agrees with the tuple, and deny when none does |
| `PolicyTable.Table.AddRule` | doca-firewall/src/policy.c:51-74 | appends under a new id, refused exactly when the table is full |
| `PolicyTable.Table.RemoveRule` | doca-firewall/src/policy.c:76-102 | shifts out exactly the rule of that id; the default and unknown ids are refused |
| `PolicyTable.Table.EvaluatePacket` | doca-firewall/src/policy.c:104-159 | the scan gives the action of the rule of least (priority, position) below UINT32_MAX that agrees with the packet, else deny |
| `PolicyTable.VerdictIsOfDeciding` | doca-firewall/src/policy.c:104-159 | the same of the table's contents, agreement spelled out field by field |
| `PolicyTable.DefaultAgrees` | doca-firewall/src/policy.c:23-41 | the default rule agrees with every packet, denies, and has the greatest priority number |
| `PolicyTable.RemovalOnlyAffectsItsPackets` | doca-firewall/src/policy.c:76-159 | removing a rule changes the verdict only of packets it was deciding |
| `PolicyTable.EnginesPickTheSameRule` | doca-firewall/src/policy.c:104-159 | for any matching predicate, with priorities below UINT32_MAX, both engines pick the same rule |
| `PolicyTable.EnginesAgreeExactly` | doca-firewall/src/policy.c:109-155 | they agree exactly when the winner is below UINT32_MAX or denies anyway |
| `PolicyTable.CeilingRuleIsLost` | doca-firewall/src/policy.c:109-155 | one rule allowing everything at UINT32_MAX: sorted first match allows, the scan denies |
| `PolicyTable.TableAgreesWithItsSort` | doca-firewall/src/policy.c:23-41 | a table with its default rule in slot 0 decides every packet as the sort of its own rules would |
| `Pipeline.ConnTracker.Lookup` | crates/prism-datapath/src/conntrack.rs:43-64 | one more packet for the flow, ESTABLISHED from the second on |
| `Pipeline.ConnTracker.EvictIdle` | crates/prism-datapath/src/conntrack.rs:73-79 | drops exactly the idle entries and counts them |
| `Pipeline.PipelineObject.ProcessPacket` | crates/prism-datapath/src/pipeline.rs:49-117 | verdict, tracking, offloaded set and counters after one packet |
| `Pipeline.VerdictMeans` | crates/prism-datapath/src/pipeline.rs:71-116 | when a packet is passed on unseen, dropped, offloaded or passed on, in terms of the rules' verdict, the tracked count and the offloaded set |
| `PipelineRuns.RunKeepsInv` | crates/prism-datapath/src/pipeline.rs:59-117 | offloaded flows are allowed ones, none is late, the counter is the size of the set |
| `PipelineRuns.DropsExactlyTheDenied` | crates/prism-datapath/src/pipeline.rs:69-117 | in every run a packet is dropped exactly when the rules deny it |
| `PipelineRuns.OffloadsExactlyAtThreshold` | crates/prism-datapath/src/offload.rs:20-35 | a flow is offloaded exactly at packet max(2, min_packets) of a lifetime, if eligible and not offloaded before |
| `PipelineRuns.OffloadedAtMostOnce` | crates/prism-datapath/src/pipeline.rs:72-112 | no flow is offloaded twice, evictions notwithstanding |
| `PipelineRuns.PacketsAreConserved` | crates/prism-datapath/src/pipeline.rs:59-117 | received = sent + dropped = packets in live entries + packets in evicted ones |
| `PipelineRuns.CountersAreExact` | crates/prism-datapath/src/pipeline.rs:59-117 | over any run the counters are the number of packets, of those the rules deny, and of the others |
| `PipelineRuns.EvictsExactlyTheIdle` | crates/prism-datapath/src/conntrack.rs:55-79 | an eviction pass drops exactly the flows silent for the timeout |
| `OffloadPath.SessionsNameTheirRule` | crates/prism-datapath/src/offload_client.rs:140-160 | in every run each session is one direction of an offloaded flow, is forwarded, and its rule id names the rule that decides that flow |
| `OffloadPath.HardwareFollowsRulesExactly` | crates/prism-datapath/src/pipeline.rs:94-112 | in every run of datapath and daemon together, requests lost or repeated, the hardware never held an entry for a flow the rules deny, exactly when every offload left only entries they allow |
| `OffloadPath.StaysSoundExactly` | crates/prism-datapath/src/pipeline.rs:94-112 | the same for one event |
| `OffloadPath.OffloadsAllowedExactly` | crates/prism-datapath/src/pipeline.rs:96-102 | offloading a TCP, UDP or ICMP flow leaves only such entries exactly when no serving is accepted or the rules do not deny the reversed tuple |
| `OffloadPath.KeyAllowedExactly` | crates/prism-datapath/src/offload_client.rs:162-178 | an entry of such a flow forwards only what the rules do not deny exactly when they do not deny that flow |
| `OffloadPath.OneWayRuleIsOpenedBothWays` | crates/prism-datapath/src/pipeline.rs:96-102 | one rule for port 443 and two packets: the hardware then forwards what comes back, which the rules deny |
| `SessionKeys.KeyStringsCollideExactly` | crates/prism-offload-daemon/src/session_table.rs:64-69 | for any keys: the strings are equal exactly when all numbers are and the addresses, joined by a colon, read the same |
| `SessionKeys.ColonsCollide` | crates/prism-offload-daemon/src/session_table.rs:64-69 | two sessions between different IPv6 addresses share a string |
| `Text.DecimalReads` | crates/prism-offload-daemon/src/session_table.rs:64-69 | reading a number's text gives the number |
| `SessionKeys.DottedQuadReads` | crates/prism-datapath/src/offload_client.rs:170-177 | the text of an address is its four bytes in decimal, highest first |
| `SessionKeys.FlowStringReads` | crates/prism-datapath/src/offload_client.rs:162-178 | the key string of a flow, part by part |
| `SessionKeys.DottedQuadInjective` | crates/prism-datapath/src/offload_client.rs:170-177 | the text of an address determines it |
| `SessionKeys.FlowStringsCollideExactly` | crates/prism-datapath/src/offload_client.rs:162-178 | flows share a key exactly when they differ at most between protocols without a wire number |
| `SessionKeys.SupportedFlowsHaveDistinctKeys` | crates/prism-datapath/src/offload_client.rs:162-178 | distinct TCP, UDP and ICMP flows have distinct keys |
| `SessionKeys.OtherProtocolsCollide` | crates/prism-datapath/src/offload_client.rs:163-168 | two other protocols collide |
| `SessionKeys.TableRefinesFlowMap` | crates/prism-offload-daemon/src/session_table.rs:84-93 | insert and remove by string act as on a map keyed by flow |
| `SessionKeys.ReverseKeyIsReverseFlow` | crates/prism-offload-daemon/src/grpc_server.rs:34-43 | the reverse key is the key of the reversed flow |
| `OffloadDaemon.RuleIdTextInjective` | crates/prism-datapath/src/offload_client.rs:148-151 | the rule id in a request determines the rule index |
| `OffloadDaemon.ProgramIsFoundBothWays` | crates/prism-offload-daemon/src/grpc_server.rs:63-150 | a bidirectional session is found and backed in both directions, as partners of one rule and network; under one string for both directions the reverse entry stays and knows the forward handle |
| `OffloadDaemon.ProgramMeans` | crates/prism-offload-daemon/src/grpc_server.rs:63-150 | the entries of index and hardware after an accepted request, one way and both ways |
| `OffloadDaemon.ReplyMeans` | crates/prism-offload-daemon/src/grpc_server.rs:52-90 | when a request is invalid, failed or programmed, and under which handle |
| `OffloadDaemon.RefusedRequestLeavesNoTraceExactly` | crates/prism-offload-daemon/src/grpc_server.rs:63-123 | a refused request leaves the index as it was, and the hardware exactly when no rollback fails; a failed rollback orphans exactly the forward handle |
| `OffloadDaemon.ProgramKeepsInv` | crates/prism-offload-daemon/src/grpc_server.rs:63-138 | handles stay distinct, and partners share rule and network |
| `OffloadDaemon.RemovalKeepsBacking` | crates/prism-offload-daemon/src/aging.rs:107-118 | removing sessions unbacks only partners of what is removed |
| `OffloadDaemon.FlushKeepsBacking` | crates/prism-offload-daemon/src/grpc_server.rs:163-191 | a flush removes exactly the selected sessions, and their handles unless the hardware fails on them, and leaves the others as backed as they were |
| `OffloadDaemon.RemovalOrphansExactly` | crates/prism-offload-daemon/src/grpc_server.rs:181-191 | removing sessions orphans exactly their live handles that the hardware fails to remove and no remaining session knows |
| `OffloadDaemon.ProgramOrphansExactly` | crates/prism-offload-daemon/src/session_table.rs:84-87 | programming orphans exactly the live handles known only to what it overwrites |
| `OffloadDaemon.ReprogrammingOrphans` | crates/prism-offload-daemon/src/session_table.rs:84-87 | programming one key twice orphans the first entry |
| `DaemonService.SessionTable.FlushMatching` | crates/prism-offload-daemon/src/session_table.rs:103-150 | removes exactly the selected sessions and lists all their handles |
| `DaemonService.FlushPins` | crates/prism-offload-daemon/src/session_table.rs:103-150 | by network, by rule, all or nothing: which keys stay, and how many go |
| `DaemonService.DocaFlowManager.ProgramSession` | crates/prism-offload-daemon/src/doca_flow.rs:58-91 | a new handle, used up even when the hardware refuses |
| `DaemonService.DocaFlowManager.QueryCounters` | crates/prism-offload-daemon/src/doca_flow.rs:127-137 | reads without moving the counters |
| `DaemonService.OffloadService.ProgramSession` | crates/prism-offload-daemon/src/grpc_server.rs:47-151 | index, hardware and answer after a request, on every path, a failing rollback included |
| `DaemonService.OffloadService.FlushSessions` | crates/prism-offload-daemon/src/grpc_server.rs:153-198 | a flush by network leaves exactly the sessions of other networks, by rule those of other rules, of all none and of nothing all, and counts those that went |
| `DaemonService.FlushesTakeExactly` | crates/prism-offload-daemon/src/grpc_server.rs:163-178 | the same in every run |
| `DaemonService.OffloadService.QuerySession` | crates/prism-offload-daemon/src/grpc_server.rs:200-247 | the whole reply: refused without a key, not found, or found with the counters after the query, zero when the hardware does not answer, and the age in whole seconds |
| `DaemonService.FlushesNeverUnback` | crates/prism-offload-daemon/src/grpc_server.rs:163-191 | in every run a flush leaves each survivor as well backed as it was |
| `DaemonService.StaysOrphanFreeExactly` | crates/prism-offload-daemon/src/grpc_server.rs:63-191 | one event keeps the hardware free of orphans exactly when it overwrites no session that alone knows a live handle, no rollback fails, and no removal fails on such a handle |
| `DaemonService.HardwareHoldsNoOrphansExactly` | crates/prism-offload-daemon/src/grpc_server.rs:63-191 | up to any point of a run the hardware never held a handle no session knows, exactly when every event before was such |
| `DaemonService.FreshKeysLeaveNoOrphans` | crates/prism-offload-daemon/src/grpc_server.rs:63-138 | in every run that programs only absent keys on hardware that does not fail, the hardware holds no handle no session knows |
| `DaemonService.FailedRollbackOrphans` | crates/prism-offload-daemon/src/grpc_server.rs:98-107 | a refused reverse entry whose rollback fails leaves the forward one as an orphan |
| `DaemonService.OrphansStay` | crates/prism-offload-daemon/src/aging.rs:107-118 | no request, flush or sweep ever removes an orphan |
| `Aging.SessionAger.SweepOnce` | crates/prism-offload-daemon/src/aging.rs:63-129 | one pass of the loop: what is evicted and what the tracker remembers |
| `Aging.EvictsExactlyTheIdle` | crates/prism-offload-daemon/src/aging.rs:76-104 | over any history a session is evicted exactly when the hardware does not answer for it or its hardware packet count was the same at every sweep over a span of the idle timeout |
| `Aging.SweepClearsUnbacked` | crates/prism-offload-daemon/src/aging.rs:78-85 | a session the hardware does not answer for is gone after a sweep |
| `Aging.SweepUnbacksOnlyPartners` | crates/prism-offload-daemon/src/aging.rs:107-122 | what a sweep leaves newly unbacked is the partner of something it evicted |
| `TcFilters.BuildFlowerCmd` | tc-firewall/src/tc_manager.py:226-252 | the command built step by step carries exactly the given keys |
| `TcFilters.FlowerKeysMatchFields` | tc-firewall/src/tc_manager.py:226-252 | the keys match exactly the packets that agree with the rule's fields |
| `TcFilters.SwappedKeysHitReversed` | tc-firewall/src/tc_manager.py:113-124 | the reverse filter hits the reverse of what the forward filter hits |
| `TcFilters.MirroredRedirectAlike` | tc-firewall/src/tc_manager.py:87-164 | mirrored lists redirect mirrored packets alike |
| `RuleSignatures.SignaturesEqualExactly` | tc-firewall/src/main.py:110-121 | two signature texts are equal exactly when ports, protocol, action and priority are and tenant, source and destination, joined by bars, read the same |
| `RuleSignatures.SignatureReads` | tc-firewall/src/main.py:116-120 | the signature text part by part |
| `RuleSignatures.NoBarsNoMixup` | tc-firewall/src/main.py:116-120 | a text of a tenant and addresses without bars belongs to no other tenant or addresses |
| `RuleStore.LookupAgreesWithScan` | tc-firewall/src/main.py:110-142 | looking up a signature agrees with scanning all live rules for one that reads alike, stale index entries notwithstanding |
| `RuleStore.NoDuplicateRules` | tc-firewall/src/main.py:124-142 | no two live rules read alike |
| `RuleStore.RepeatingAddIsIdempotent` | tc-firewall/src/main.py:334-411 | repeating a request gets the same rule and changes nothing, with or without a key |
| `RuleStore.AnswerIsOwnExactly` | tc-firewall/src/main.py:124-142 | the answer is the tenant's own exactly when neither another tenant's idempotency key caught the request nor, without a key, another tenant's rule that reads alike |
| `RuleStore.OwnWithoutBars` | tc-firewall/src/main.py:110-142 | when no live rule holds a bar in tenant or addresses, a request no key catches is answered with the tenant's own rule |
| `RuleStore.BarMixesTenantsUp` | tc-firewall/src/main.py:116-142 | a tenant, without a key, is answered with a rule of another tenant, whose name is its own and goes on after a bar |
| `RuleStore.AnswerIsAnotherTenants` | tc-firewall/src/main.py:130-135 | two tenants use one idempotency key: the second is answered with the first one's rule, whatever it asked for |
| `RuleStore.AddMeans` | tc-firewall/src/main.py:334-411 | a request makes a rule exactly when it is new, the tenant has room and both commands go through; what the rule says, where it stands and how it is found |
| `RuleStore.DeleteMeans` | tc-firewall/src/main.py:443-477 | a delete takes exactly the rule and the index entries that name it |
| `RuleStore.FlushMeans` | tc-firewall/src/main.py:500-513 | a flush takes exactly the index entries of the tenant's rules |
| `RuleStore.AddKeeps` | tc-firewall/src/main.py:334-411 | an add keeps the indexes, and the filters the rendering of the rules exactly when no command fails or times out after a filter went in |
| `RuleStore.DeleteKeeps` | tc-firewall/src/main.py:443-477 | a delete keeps the indexes, and the filters exactly when it takes both filters of a rule that goes and, timed out, none of a rule that stays |
| `RuleStore.FlushKeeps` | tc-firewall/src/main.py:491-520 | a flush removes exactly the tenant's rules, or those before a removal that times out; index entries go stale exactly when that leaves some removed; it keeps the filters exactly when no removal comes halfway |
| `RuleStore.DeletedRenders` | tc-firewall/src/tc_manager.py:272-283 | deleting one rule's handle from the rendering of some rules leaves the rendering of the others |
| `RuleStore.DropAllInstalledExactly` | tc-firewall/src/main.py:237-251 | after dropping several rules the ports hold exactly the filters of the rest if and only if both filters of each dropped rule were deleted |
| `RuleStore.InstalledPortsMirror` | tc-firewall/src/tc_manager.py:87-164 | a packet is redirected on one port exactly when its reverse is on the other |
| `RuleStore.RulesDecidePackets` | tc-firewall/src/tc_manager.py:101-149 | a packet is redirected exactly when the live rule of least (priority, age) about it allows |
| `RuleStore.ConcernsExactly` | tc-firewall/src/tc_manager.py:226-252 | the keys of a rule hit exactly the packets of its protocol and given addresses, and, for TCP and UDP only, its given ports |
| `RuleStore.PartialInstallMirrorsExactly` | tc-firewall/src/main.py:373-402 | a filter left by a failed second command breaks the mirror at exactly the packets it decides differently |
| `RuleStore.PartialDeleteMirrorsExactly` | tc-firewall/src/main.py:456-466 | after a deletion the ports mirror each other when both filters or neither went, and else at exactly the packets the rule made no difference to |
| `RuleStore.PartialInstallBreaksMirror` | tc-firewall/src/main.py:373-402 | a failed second command leaves a one-way filter |
| `RuleStore.UnknownHandleBreaksMirror` | tc-firewall/src/tc_manager.py:255-275 | a rule whose forward handle could not be asked for leaves its filter behind when deleted |
| `RuleTable.Table.AddRule` | tc-firewall/src/main.py:334-411 | rules, indexes, filters and answer, on every path, timeouts included |
| `RuleTable.Table.CountOwned` | tc-firewall/src/main.py:86-88 | counts exactly the tenant's rules |
| `RuleTable.Table.Find` | tc-firewall/src/main.py:124-142 | by key first, then by signature |
| `RuleTable.Table.DeleteRule` | tc-firewall/src/main.py:443-477 | removes an own rule from rules and indexes and its filters as far as their handles are known and the commands succeed; a timeout leaves the rule; others and unknown ids are refused |
| `RuleTable.Table.FlushTenant` | tc-firewall/src/main.py:491-520 | the same for all rules of the tenant, one after another, up to a timeout |
| `NatManager.NatTextIsOwn` | tc-firewall/src/nat_manager.py:66-81 | the signature text of a NAT rule without bars is that of no other rule |
| `NatManager.NatBarsCollide` | tc-firewall/src/nat_manager.py:73-75 | two SNAT rules with bars in their addresses share a text |
| `NatManager.ReapplyIsFaithfulExactly` | tc-firewall/src/nat_manager.py:462-499 | re-applying installs what adding did exactly for a named protocol and, when forwarding, ports other than 0 |
| `NatManager.RemoveRendersRestExactly` | tc-firewall/src/nat_manager.py:394-434 | a removal leaves both bands the rendering of the remaining entries exactly when the flush and all re-applications on its port succeed and install what adding did |
| `NatManager.RemovedAsIfNeverAdded` | tc-firewall/src/nat_manager.py:394-434 | after a removal the bands are those of a manager only ever given the remaining rules exactly under that condition, and then every packet is translated alike |
| `NatManager.AddThenRemoveRestoresExactly` | tc-firewall/src/nat_manager.py:248-434 | adding and removing a rule restores the whole state exactly when flush and re-applications bring back what was there on its port |
| `NatManager.BandMeansOldestRule` | tc-firewall/src/nat_manager.py:12-20 | a band translates every packet by the oldest rule about it |
| `NatManager.ReappliedMeans` | tc-firewall/src/nat_manager.py:462-499 | what a re-applied rule does to a packet: TCP for an unnamed protocol, and no new port where a port is 0 |
| `NatManager.EmptyProtocolChangesOnReapply` | tc-firewall/src/nat_manager.py:474-499 | two rules added and one removed: a TCP packet not translated before is translated after, by the rule without protocol that stayed |
| `NatManager.FailedReapplyLosesRule` | tc-firewall/src/nat_manager.py:462-499 | a rule whose re-application fails is live and translates nothing |
| `NatManager.AddMeans` | tc-firewall/src/nat_manager.py:96-167 | a request is stored, under its id and saying what was asked for, exactly when the mode is valid, no rule has its text, the pool has room and the command succeeds; otherwise nothing changes |
| `NatManager.AddKeeps` | tc-firewall/src/nat_manager.py:121-167 | an add keeps the index the inverse of the entries and the bands their rendering |
| `NatManager.Manager.AddSnat` | tc-firewall/src/nat_manager.py:96-167 | state and answer on every path: bad mode, duplicate, exhausted, failed, added; a failed command stores nothing |
| `NatManager.Manager.AddDnat` | tc-firewall/src/nat_manager.py:248-317 | state and answer on every path |
| `NatManager.Manager.AddPortForward` | tc-firewall/src/nat_manager.py:320-391 | state and answer on every path |
| `NatManager.Manager.RemoveNat` | tc-firewall/src/nat_manager.py:394-434 | flush of one band and in-order re-application of its survivors, as far as the commands succeed |
| `FirewallService.RunKeepsInv` | tc-firewall/src/main.py:225-287 | in every run indexes are inverses, every rule and NAT entry has a registered tenant, and no tenant exceeds max(0, quota) |
| `FirewallService.StaysInstalledExactly` | tc-firewall/src/main.py:373-529 | one request keeps the ports the rendering of the live rules exactly when it leaves no filter without a rule and no rule without a filter |
| `FirewallService.RunInstalledExactly` | tc-firewall/src/main.py:373-529 | up to any point of a run the ports always were that rendering, exactly when every request before was such |
| `FirewallService.PortsMirror` | tc-firewall/src/main.py:373-402 | as long as every request is such the two ports mirror each other |
| `FirewallService.NatBandsStayExact` | tc-firewall/src/main.py:610-643 | in every run of faithful NAT requests and removals whose commands succeed both bands render the live entries |
| `FirewallService.DeleteNatBandsExactly` | tc-firewall/src/main.py:796-824 | one deletion keeps the bands exact exactly when it brings back what remains |
| `FirewallService.AddNatCounts` | tc-firewall/src/main.py:619-643 | a repeated NAT request that takes over an entry stays within the taker's quota |
| `FirewallService.RulesGoExactly` | tc-firewall/src/main.py:225-529 | a rule goes exactly when its own tenant deletes or flushes it, or anybody deletes that tenant, and no timeout ends the request before it; otherwise it stays as it was |
| `FirewallService.LiveRuleWasInstalled` | tc-firewall/src/main.py:334-411 | in every run each live rule was made by an earlier request of its tenant for exactly what it says |
| `FirewallService.LiveNatWasInstalled` | tc-firewall/src/main.py:610-643 | in every run each live NAT entry was made by an earlier request for it whose command succeeded |
| `FirewallService.KeyStaysWithRule` | tc-firewall/src/main.py:130-135 | an idempotency key names its rule for as long as the rule lives |
| `FirewallService.TenantsChangeExactly` | tc-firewall/src/main.py:176-287 | a tenant is registered exactly from its registration to the deletion that goes through, with the quotas it was registered with |
| `FirewallService.NatChangesHandsExactly` | tc-firewall/src/main.py:619-857 | a NAT entry goes exactly when its tenant deletes or flushes it or anybody deletes that tenant, and changes hands exactly when an accepted request has its signature text |
| `FirewallEndpoints.Service.RegisterTenant` | tc-firewall/src/tenants.py:47-56 | registers only an unknown tenant |
| `FirewallEndpoints.Service.AddRuleFor` | tc-firewall/src/main.py:321-435 | refuses without a registered tenant, else adds under its quota |
| `FirewallEndpoints.Service.AddNatFor` | tc-firewall/src/main.py:610-661 | quota first, then the manager, then the tenant written into the shared entry |
| `FirewallEndpoints.Service.CountNat` | tc-firewall/src/main.py:91-93 | counts exactly the tenant's NAT entries |
| `FirewallEndpoints.Service.DeleteNatFor` | tc-firewall/src/main.py:796-824 | removes an own entry only |
| `FirewallEndpoints.Service.RemoveTenant` | tc-firewall/src/main.py:225-287 | removes the tenant with all its rules and NAT entries; a removal of a rule that times out ends it before the NAT entries |
| `AdminStore.PushInstallsExactly` | crates/prism-admin/src/store.rs:226-309 | a successful push makes the firewall's policies and rules exactly the requested ones and leaves other firewalls' alone |
| `AdminStore.AddPoliciesExactly` | crates/prism-admin/src/store.rs:264-296 | the nested loops add exactly the listed policies and rules and touch nothing else |
| `AdminRuns.RunKeepsInv` | crates/prism-admin/src/store.rs:168-197 | in every reachable state every rule's policy exists |
| `AdminRuns.OneSuccessPerGeneration` | crates/prism-admin/src/store.rs:77-109 | at most one update or push naming a generation of a firewall ever succeeds |
| `AdminRuns.RefusalIsExact` | crates/prism-admin/src/store.rs:231-243 | a push is refused exactly for a missing firewall or another generation, and then changes nothing |
| `AdminRuns.StaysRootedExactly` | crates/prism-admin/src/store.rs:111-117 | one call keeps every policy's firewall in existence exactly when it does not delete a firewall that has policies |
| `AdminRuns.RunRootedExactly` | crates/prism-admin/src/store.rs:111-117 | the same up to any point of a run |
| `AdminRuns.DeletedFirewallKeepsPolicy` | crates/prism-admin/src/store.rs:111-117 | a deleted firewall's policy stays |
| `AdminRuns.AppStore.UpdateFirewall` | crates/prism-admin/src/store.rs:77-109 | new state and answer on every path |
| `AdminRuns.AppStore.ApplyDesiredState` | crates/prism-admin/src/store.rs:226-309 | new state and answer on every path |

## Left out

- The HTTP and gRPC plumbing, the API orchestrator, traffic generator, receiver, test runner and the user interfaces: input, output and display.
- `doca-firewall/src/ct_offload.c`, `flow_init.c` and `main.c`, and the `prism-doca-sys` crate: calls into foreign code.
- Running `tc` and `conntrack` and parsing what they print: the kernel is an ordered filter list per port, which hands out handles unused at their priority.
- NatManager.Manager.AddSnat, AddDnat and AddPortForward: a command that times out after it was applied, which leaves a filter without an entry.
- FirewallEndpoints.Service.DeleteNatFor: a command of the removal that times out; on the port it counts as failed, but the endpoint then keeps the id among the tenant's entries.
- A firewall rule at priority 20, the priority of the NAT bands: the bands and the rule filters are separate lists here.
- AclEngine.CidrIsBlock: rules hold a CIDR parsed, or as malformed; reading the text is not modelled, nor are prefixes longer than 32, for which the source's subtraction underflows.
- Hit counts of the policy table and its JSON form.
- The channels of the offload client and the limit on its retries; an offload request may be lost, or be served any number of times.
- Pool statistics, utilisation percentages and warnings of the SNAT pools.
- That a poisoned lock in the mock hardware stays poisoned: the handles for which the hardware fails may change at any time, which only adds runs.
- The counters cached in session entries, and time stamps that nothing modelled reads.
- Interleavings inside one store call, one endpoint or one sweep: each is one step.
- The status report of the HA manager and its count of missed heartbeats, which only display.
- The first wait of the heartbeat monitor: the model lets the monitor look at any time, which only adds runs.
- The three dictionaries of the SNAT allocator share their keys from creation on and are one table of records.
