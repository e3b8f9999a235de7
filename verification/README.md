# A Dafny model of network-enforcer

network-enforcer learns the network flows of Kubernetes workloads, turns them into
`WorkloadNetworkPolicyProposal`s, promotes those to `WorkloadNetworkPolicy` objects (WNPs),
renders each WNP as a NetworkPolicy or an Istio AuthorizationPolicy, and keeps a bounded
list of violations in the status of each WNP. This project models the decision core of the
controller and proves what it keeps over whole runs. `dafny verify dfyconfig.toml` checks it.

The modules follow the program:

| module | models |
|---|---|
| `Api`, `Text`, `Ownership`, `Seqs`, `Sums` | API objects, decimal and string helpers, owner references, list and sum facts |
| `Unordered`, `PolicyHelpers` | unordered slice comparison and the peer and rule equalities built on it |
| `ProposalNames`, `TargetIndex` | the proposal-name codec and the (targetRef, direction) index |
| `KubernetesRules`, `KubernetesLearning` | Kubernetes learning, monitoring and promotion, as runs over a cluster |
| `IstioRules`, `IstioLearning` | the Istio allow decision, Istio learning and promotion, as runs over a cluster |
| `RingBuffer`, `Newest`, `Merge`, `Recompute`, `RecomputeLaws` | the scrape buffer and the recomputation of one status |
| `Ledger`, `InertAnnotations` | the persisted history of one policy under failing patches and user edits |
| `Attribution`, `StatusSync`, `Recording`, `Pipeline` | attribution, the sync cycle with its accounts, what becomes of one observation, and learning and status sync together |
| `Admission` | the admission webhook over serial runs |
| `Conditions`, `SelectorScope`, `Duplicates`, `DataPlane`, `Reconcile`, `ReconcileReasons`, `ReconcileRuns` | reconciliation of a WNP, one step and whole runs |

Code that updates objects in place is modelled by classes (`Buffer`, `PolicyObject`,
`StatusSync`, `Controllers`, `IstioPayload`, `Reconciler`) and loops, each proved equal to
a function of the old state; the laws are proved about those functions. Where a law is
stated through a function (what counts as the same violation, as allowed, as learned, as
older), a lemma says in terms of the fields what that function means.

What the environment does is a parameter everywhere: the outcome of every API call, the
time, the order of lists and maps, concurrent edits of annotations and conditions, the
formatting of label selectors and the compilation of selectors. A patch or write has three
outcomes: persisted, rejected, or persisted with the answer lost. Schema rules of the CRDs
(the populated back end, the kind and direction enumerations, nonempty names) are
preconditions where the code relies on them.

Facts about the code that a reader may not expect:

- Learning an Istio port can narrow a policy. A rule for one principal without a port list
  allows every port; learning a port turns it into a rule for that port alone
  (`IstioRules.LearningCanRevoke`). `IstioRules.UpsertDecision` says exactly which decisions
  change, for every ruleset; no decision of another identity ever changes.
- An acknowledge annotation for an ID that was not issued yet is not ignored for good: it
  stays and fires when the ID is issued. Inert are exactly the retired IDs and the numbers
  that can be no ID, negative or beyond an int64 (`InertAnnotations.InertIffRetired`). The
  runs that fire the others keep to the schema and to batches that attribution can build.
- Kubernetes learning panics on a promoted policy that has no Kubernetes payload, as after
  a change of provider; the event then ends like one with an error.
- Acknowledgements of one step survive the trim to one hundred entries if and only if they
  fit beside the stored entries that are not older (`RecomputeLaws.AcknowledgementsSurviveIff`).
- The webhook keeps targets unique only with a current list; with stale lists two creates
  pass (`Admission.StaleListsAdmitDuplicates`), which is what the oldest-wins rule is for.
- One writer per target is not one object per target. A policy that rendered and then loses
  its target to an older one keeps its object (`ReconcileRuns.LoserFrozen`), so both can be
  in place (`ReconcileRuns.TwoObjectsForOneTarget`).
- The greedy comparison of `EqualUnordered` is complete for equivalences and incomplete in
  general (`Unordered.GreedyIncompleteWithoutEquivalence`).

## Model

| member | source | states |
|---|---|---|
| `Ledger.AtMostOnce` | internal/controller/workloadnetworkpolicystatus_sync.go:471-502 | over every run of syncs with arbitrary patch failures, lost answers and user edits of annotations and spec, no violation ID is emitted as acknowledged twice |
| `Ledger.EmitsOnlyAfterPersist` | internal/controller/workloadnetworkpolicystatus_sync.go:486-502 | a step emits only if its status patch was persisted, and every emitted ID then leaves the persisted active list for the first time |
| `Ledger.PersistedEvents` | internal/controller/workloadnetworkpolicystatus_sync.go:471-502 | a persisted sync emits exactly the acknowledged records and leaves exactly the recomputed status |
| `Ledger.IdLifecycle` | api/v1alpha1/violation_record.go:298-414 | in every reachable persisted status the active and acknowledged IDs together are pairwise distinct and below ViolationCount, active keys are distinct, and both lists are newest first and at most 100 long |
| `Ledger.SoundIds` | api/v1alpha1/violation_record.go:298-414 | the ledger invariant implies distinct and issued IDs across both lists |
| `Ledger.RunSound` | internal/controller/workloadnetworkpolicystatus_sync.go:471-502 | every run keeps the ledger invariant, only extends the events, and brings no retired ID back |
| `Ledger.RetiredForever` | api/v1alpha1/violation_record.go:331-394 | an ID that left the active list never becomes active or fires again, in any continuation of any run |
| `Ledger.StatusPatchExact` | internal/controller/workloadnetworkpolicystatus_sync.go:478-490 | the status merge patch writes the recomputed status and keeps conditions others wrote meanwhile |
| `Ledger.AnnotationPatchExact` | internal/controller/workloadnetworkpolicystatus_sync.go:494-502 | the annotation merge patch removes exactly the consumed annotations and keeps concurrent edits |
| `Ledger.SyncAnnotations` | internal/controller/workloadnetworkpolicystatus_sync.go:471-502 | a sync whose two patches persist removes exactly the annotations its events used and keeps all others with their values, also those written meanwhile; if the annotation patch fails it removes none; a status patch that is rejected or whose answer is lost leaves the annotations alone |
| `Ledger.EventsExplained` | api/v1alpha1/violation_record.go:366-381 | every event acknowledges a violation some annotation names, with the value of that annotation as its reason and the time of the sync |
| `InertAnnotations.InertIffRetired` | api/v1alpha1/violation_record.go:331-394 | for every number: no run with schema-valid edits and attributable batches ever emits an event for it if and only if it is retired, negative, or beyond an int64 |
| `Merge.MergeScraped` | api/v1alpha1/violation_record.go:298-327 | the loop with its key-to-index map computes the merge that scans the list, and raises ViolationCount by the batch length |
| `Merge.MergeAllSpec` | api/v1alpha1/violation_record.go:298-323 | before the trim: one record per key, with the latest timestamp of all its observations, old records and IDs in place, new records after them in the order of their first sighting |
| `Merge.MergeOfUnique` | api/v1alpha1/violation_record.go:298-323 | that specification has only one solution, so it fixes the merged list completely |
| `Merge.SameKeyIff` | api/v1alpha1/violation_record.go:42-58 | two observations are merged exactly when they differ in nothing but time and the labels of their endpoints |
| `Merge.MergedSpec` | api/v1alpha1/violation_record.go:324-327 | the kept records are newest first, at most 100, and no dropped record is newer than a kept one |
| `Merge.MergeIds` | api/v1alpha1/violation_record.go:298-327 | old records keep their IDs, new ones get increasing IDs from the batch's own range |
| `Merge.MergedActive` | api/v1alpha1/violation_record.go:298-327 | merging keeps keys and IDs distinct and below the new ViolationCount, and every ID was active or is new |
| `Merge.MergeHomomorphism` | api/v1alpha1/violation_record.go:298-327 | with at most 100 keys, merging two batches in turn leaves the same multiset of records, IDs and times as merging them as one |
| `Newest.SortStable` | api/v1alpha1/violation_record.go:320-326 | insertion computes the stable newest-first sort |
| `Newest.SortIsTheOnlyOne` | api/v1alpha1/violation_record.go:320-326 | newest first with ties in order determines the result, so every stable sort agrees |
| `Newest.TrimKeepsNewest` | api/v1alpha1/violation_record.go:324-326 | the trim keeps a sorted prefix of at most 100 and drops nothing newer |
| `Newest.SortAppendBatch` | api/v1alpha1/violation_record.go:383-390 | a batch with one timestamp lands in order between the entries not older and the older ones |
| `Recompute.CollectAcknowledgements` | api/v1alpha1/violation_record.go:331-357 | the map from ID to annotation holds, for every ID some annotation names, one of the annotations that name it, and nothing else |
| `Recompute.RuleClears` | api/v1alpha1/violation_record.go:249-294 | a rule clears a violation exactly when it has one peer, the other side's whole namespace, and one port, that of the flow |
| `Recompute.KubernetesAllowedIff` | api/v1alpha1/violation_record.go:148-163 | a Kubernetes policy allows a violation exactly when an ingress rule has one peer, the whole namespace of the source, and just the port of the flow, or an egress rule the same with the namespace of the destination |
| `Recompute.IstioAllowedIff` | api/v1alpha1/violation_record.go:165-178 | an Istio policy allows a violation exactly when one rule lets in the identity of its source and opens its port |
| `Recompute.AckIdIff` | api/v1alpha1/violation_record.go:339-354 | an annotation names an ID exactly when its key is the prefix and a decimal text of an int64 |
| `Text.ParseIntIff` | api/v1alpha1/violation_record.go:232-246 | parsing accepts exactly an optional sign, any zeros and the digits of a number that fits, and yields that number |
| `Recompute.PolicyObject.MergeScrapedViolations` | api/v1alpha1/violation_record.go:298-327 | the status after the merge |
| `Recompute.PolicyObject.ClearAllowedViolations` | api/v1alpha1/violation_record.go:136-178 | exactly the violations the policy's own payload allows (see the two rows on that) are removed, in order, for both back ends |
| `Recompute.PolicyObject.AcknowledgeViolationsFromAnnotations` | api/v1alpha1/violation_record.go:331-394 | named violations move to the acknowledged list with reason and time, their annotations are consumed, the rest stays |
| `Recompute.PolicyObject.RecomputeStatus` | api/v1alpha1/violation_record.go:398-414 | the whole new object and the returned acknowledgements as functions of the old object |
| `RecomputeLaws.RecomputePartition` | api/v1alpha1/violation_record.go:136-178 | the merged records split exactly into active, cleared and acknowledged |
| `RecomputeLaws.RecomputeLeavesNoneDue` | api/v1alpha1/violation_record.go:398-414 | no active record is allowed or named by an input annotation, acknowledged ones are named by a consumed annotation, and both counters are right |
| `RecomputeLaws.RecomputeIdempotent` | api/v1alpha1/violation_record.go:398-414 | a second run without new observations, at any time and for any choice among duplicate annotations, changes nothing |
| `RecomputeLaws.StoredAcksLayout` | api/v1alpha1/violation_record.go:364-390 | the stored list is the entries not older than now, the new acknowledgements, the older entries, cut at 100 |
| `RecomputeLaws.AcknowledgementsSurviveIff` | api/v1alpha1/violation_record.go:364-390 | all acknowledgements of a step are stored if and only if they fit beside the entries not older than the step; IDs are distinct, as `Ledger` shows of every reachable status |
| `RecomputeLaws.AcknowledgementsSurviveLater` | api/v1alpha1/violation_record.go:364-390 | when the step is later than every stored entry, all its acknowledgements survive and only the oldest earlier ones are dropped |
| `RingBuffer.Buffer.constructor` | internal/ringbuf/buffer.go:19-27 | an empty buffer of the given size, or of the default size when it is not positive |
| `RingBuffer.Buffer.Record` | internal/ringbuf/buffer.go:35-45 | a record is appended to the abstract history, and true is returned exactly when an undrained one is overwritten |
| `RingBuffer.Buffer.Drain` | internal/ringbuf/buffer.go:49-67 | the reverse of the last min(n, capacity) records since the previous drain, and an empty history |
| `Attribution.BuildOwnershipIndex` | internal/controller/workloadnetworkpolicystatus_sync.go:149-194 | every NetworkPolicy is indexed with the policy its first fitting controller reference names, or with none exactly when there is none |
| `Attribution.OwnerFromIff` | internal/controller/workloadnetworkpolicystatus_sync.go:178-194 | the owner is the policy named by the first controller reference of the right version and kind that names one of the snapshot |
| `Attribution.SubjectIff` | internal/controller/workloadnetworkpolicystatus_sync.go:399-413 | the subject is the source of an egress and the destination of an ingress flow, if it is a supported workload with name and namespace |
| `Attribution.ReportedOwnerIff` | internal/controller/workloadnetworkpolicystatus_sync.go:419-465 | which reports are trusted, for Istio and for Kubernetes, and which policy they stand for |
| `Attribution.DuplicateTargets` | internal/controller/workloadnetworkpolicystatus_sync.go:376-393 | exactly the targets that two or more policies of the snapshot share |
| `Attribution.LookupSpec` | internal/workload/target_index.go:50-79 | the lookup returns the only policy with that target, or says none, several, or failed, exactly when that is so |
| `Attribution.TargetingIsListing` | internal/controller/workloadnetworkpolicystatus_sync.go:363-393 | the counted targets are the (targetRef, direction) listings |
| `Attribution.AttributionRefines` | internal/controller/workloadnetworkpolicystatus_sync.go:247-333 | with cache and snapshot equal, the chain returns the unique policy for (subject, direction) or the reason there is none, whatever the data plane reported |
| `Attribution.DisagreementIff` | internal/controller/workloadnetworkpolicystatus_sync.go:301-333 | the disagreement counter is bumped exactly when the reported object belongs to a policy for another workload and the subject's target is not duplicated |
| `Attribution.AttributionSafe` | internal/controller/workloadnetworkpolicystatus_sync.go:247-465 | with a stale snapshot an attributed key is in the snapshot, targets the subject in snapshot or cache, and is duplicated in neither |
| `Attribution.VerdictExact` | internal/controller/workloadnetworkpolicystatus_sync.go:247-333 | every verdict for any snapshot and cache, in order: unknown subject, duplicated in either, lookup failed, the reported policy if it targets the subject, the only policy of the cache that does if the snapshot has it, none |
| `StatusSync.CorrelateViolations` | internal/controller/workloadnetworkpolicystatus_sync.go:200-234 | the groups, the unattributed count and the disagreement count are those of the verdicts of the chain |
| `StatusSync.GroupIsSubsequence` | internal/controller/workloadnetworkpolicystatus_sync.go:200-234 | a group is an order-preserving subsequence of the drained list, complete for its policy; every record has the time, endpoints, protocol, port and action of its observation and names that policy |
| `StatusSync.GroupsAccount` | internal/controller/workloadnetworkpolicystatus_sync.go:200-234 | every observation is in exactly one group or unattributed |
| `StatusSync.StatusSync.Record` | internal/ringbuf/buffer.go:35-45 | a recorded observation keeps the accounts balanced |
| `StatusSync.StatusSync.ProcessWorkloadNetworkPolicy` | internal/controller/workloadnetworkpolicystatus_sync.go:471-502 | processing a policy takes exactly the sync step of its ledger with that batch, time, patch outcomes and concurrent writes |
| `StatusSync.StatusSync.ProcessAll` | internal/controller/workloadnetworkpolicystatus_sync.go:137-146 | every policy takes one such step with its own group and environment, in any order |
| `StatusSync.StatusSync.DrainAndCorrelate` | internal/controller/workloadnetworkpolicystatus_sync.go:118-136 | the buffer is drained once and what it held is grouped by the verdicts |
| `StatusSync.StatusSync.Sync` | internal/controller/workloadnetworkpolicystatus_sync.go:103-146 | conservation: recorded = overwritten + buffered + unattributed + lost + persisted, where lost grows by exactly the sizes of the groups whose status patch is rejected and persisted by exactly the growth of the counters; an error before the drain changes nothing; no policy emits an ID again |
| `StatusSync.StepGrowth` | internal/controller/workloadnetworkpolicystatus_sync.go:471-490 | a sync raises the persisted ViolationCount by its batch unless the status patch is rejected |
| `StatusSync.CycleDone` | internal/controller/workloadnetworkpolicystatus_sync.go:103-146 | the drained observations are the growth of the counters, the groups whose status patch was rejected, and the unattributed ones |
| `StatusSync.GroupsBalance` | internal/controller/workloadnetworkpolicystatus_sync.go:137-146 | over all policies, the sizes of the groups are the growth of the counters plus the groups whose status patch was rejected |
| `StatusSync.CycleSound` | internal/controller/workloadnetworkpolicystatus_sync.go:137-146 | a cycle keeps the ledger of every policy sound: events are only appended and retired IDs stay retired |
| `Recording.AttributedIsRecorded` | internal/controller/workloadnetworkpolicystatus_sync.go:200-234 | an attributed observation whose policy has its status patch applied is in the batch and counted, and a record with its endpoints, protocol, port and action, no older than it and naming the policy, is active, allowed, acknowledged now, or trimmed as no newer than a hundred others |
| `StatusSync.StatusSync.EditPolicy` | internal/controller/workloadnetworkpolicystatus_sync.go:103-114 | a policy edited between cycles takes the edit step of its ledger, and the accounts stay balanced |
| `StatusSync.StatusSync.CreatePolicy` | internal/controller/workloadnetworkpolicystatus_sync.go:103-114 | a policy created between cycles starts an empty ledger, and the accounts stay balanced |
| `StatusSync.StatusSync.DeletePolicy` | internal/controller/workloadnetworkpolicystatus_sync.go:103-114 | a policy deleted between cycles takes its counter along, and the accounts stay balanced |
| `Unordered.EqualUnorderedLoop` | api/v1alpha1/policy_helpers.go:41-63 | the nested loops compute the greedy comparison |
| `Unordered.GreedySound` | api/v1alpha1/policy_helpers.go:41-63 | what the greedy search accepts is a matching, for every relation |
| `Unordered.GreedyComplete` | api/v1alpha1/policy_helpers.go:41-63 | for an equivalence the greedy search accepts whenever a matching exists |
| `Unordered.EqualUnorderedIffMatchable` | api/v1alpha1/policy_helpers.go:41-63 | for an equivalence, true if and only if a bijection of equal elements exists |
| `Unordered.GreedyIncompleteWithoutEquivalence` | api/v1alpha1/policy_helpers.go:41-63 | some relation has a matching that the greedy search misses |
| `Unordered.EqualUnorderedIsEquivalence` | api/v1alpha1/policy_helpers.go:41-63 | the comparison of slices is an equivalence when that of elements is |
| `Unordered.EqualUnorderedIsPermutation` | api/v1alpha1/policy_helpers.go:41-63 | with equality of elements the comparison is equality as multisets |
| `PolicyHelpers.IPBlockEqualIsEquivalence` | api/v1alpha1/policy_helpers.go:16-26 | IPBlockEqual is an equivalence |
| `PolicyHelpers.PeerEqualIsEquivalence` | api/v1alpha1/policy_helpers.go:11-33 | PolicyPeerEqual is an equivalence, for every selector formatting |
| `PolicyHelpers.RuleEqualIsEquivalence` | api/v1alpha1/policy_helpers.go:66-75 | both rule equalities are equivalences |
| `PolicyHelpers.IPBlockEqualIff` | api/v1alpha1/policy_helpers.go:16-26 | equal blocks have the same range and the same exceptions in any order |
| `PolicyHelpers.RuleEqualIff` | api/v1alpha1/policy_helpers.go:29-75 | equal rules have the same ports in any order and peers that can be paired so that selectors format alike and IP blocks are equal |
| `PolicyHelpers.EqualUnorderedSingleton` | api/v1alpha1/policy_helpers.go:41-63 | comparison with a one-element slice is comparison with its element |
| `KubernetesRules.ContainsPeerPort` | internal/controller/monitor_kubernetes.go:46-75 | the search loop finds a rule that covers the peer and port exactly when there is one |
| `KubernetesRules.UpsertRuleByPeer` | internal/controller/learning_kubernetes.go:139-185 | the loop of both upserts computes the specified rule list |
| `KubernetesRules.UpsertExact` | internal/controller/learning_kubernetes.go:139-185 | one learned flow widens any rule list by that flow, up to peer equality, and by nothing else |
| `KubernetesRules.LearnAllExact` | internal/controller/learning_kubernetes.go:139-185 | so does every sequence of flows, from every rule list |
| `KubernetesRules.UpsertFrame` | internal/controller/learning_kubernetes.go:139-185 | learning appends one rule for a new peer, or appends the port to the first rule for that peer alone unless it is there, and touches no other rule |
| `KubernetesRules.LearnAllTidy` | internal/controller/learning_kubernetes.go:139-185 | learned rules have one peer each, no peer twice and no port twice |
| `KubernetesLearning.Controllers.ReconcileKubernetesProposal` | internal/controller/learning_kubernetes.go:51-115 | the proposal is extended while nothing is promoted, and afterwards only monitored; success exactly when no call fails, at most one policy is promoted, and a monitored one has a Kubernetes payload |
| `KubernetesLearning.Controllers.EvaluateMonitorViolation` | internal/controller/monitor_kubernetes.go:16-40 | one observation exactly for a flow the policy does not cover, and a panic exactly when it has no Kubernetes payload |
| `KubernetesLearning.Controllers.ProcessKubernetesLearningEvent` | internal/controller/learning_kubernetes.go:19-49 | an event without source or destination is rejected; otherwise the egress side is processed before the ingress side, which is skipped exactly after a failure |
| `KubernetesLearning.Controllers.ReconcileProposal` | internal/controller/workloadnetworkpolicyproposal_controller.go:30-109 | orphaned and already promoted proposals are dropped, labelled ones promoted, with every call failing or not |
| `KubernetesLearning.RunTracks` | internal/controller/learning_kubernetes.go:51-115 | after every run the proposal or the promoted policy of a workload and direction holds exactly the events learned for it, in that direction only, with the workload as its target and the selector of its first event |
| `KubernetesLearning.LearningExact` | internal/controller/learning_kubernetes.go:51-185 | after every run of learning and promotion the kept rules cover a peer and port if and only if some learned event of that workload had a peer whose namespace and labels format alike and exactly that protocol and port |
| `KubernetesLearning.MonitorReportsUnlearned` | internal/controller/monitor_kubernetes.go:16-121 | after promotion a monitored flow yields one observation, with its endpoints by direction, protocol, port and policy, if no flow to a like peer on that port was learned, and none if one was; nothing more is learned |
| `KubernetesLearning.UnlikeFlowReported` | internal/controller/monitor_kubernetes.go:16-40 | a monitored flow to a peer whose labels format unlike those of every peer learned on that port is reported |
| `KubernetesLearning.PromotedSchemaValid` | internal/controller/workloadnetworkpolicyproposal_controller.go:75-109 | promotion writes only policies the CRD schema accepts, as long as the learned workloads have labels |
| `KubernetesLearning.PromotionIff` | internal/controller/workloadnetworkpolicyproposal_controller.go:30-109 | exactly when a reconcile promotes a proposal, with which spec, mode, label and status, and exactly when it deletes it |
| `Pipeline.PromotedTargetsUnique` | internal/controller/workloadnetworkpolicyproposal_controller.go:60-109 | promotion never creates two policies for one workload and direction |
| `Pipeline.RunNamed` | internal/controller/workload_selectors.go:12-32 | in every run proposals and policies are named after the workload and direction they target |
| `Pipeline.ObservedSubject` | internal/controller/monitor_kubernetes.go:94-121 | the observation of a monitored flow has that flow's workload as its subject |
| `Pipeline.UnlearnedFlowReachesItsPolicy` | internal/controller/workloadnetworkpolicystatus_sync.go:247-333 | after every run, an unlearned monitored flow is observed and attributed to the policy promoted from that workload and direction, whatever status and annotations the policies have by then |
| `Pipeline.UnlearnedFlowIsRecorded` | internal/controller/workloadnetworkpolicystatus_sync.go:103-146 | through the sync: the flow is counted in that policy, and a record with its endpoints, protocol and port, no older than it and naming that policy, is in the persisted status, unless the policy allows it, it is acknowledged in that cycle, or a hundred others are as new |
| `IstioRules.LearnedPortMatches` | api/v1alpha1/violation_record.go:224-246 | a learned port, printed and parsed as a range, matches itself and nothing else |
| `IstioRules.PortRangeMatches` | api/v1alpha1/violation_record.go:224-246 | a range matches exactly the ports from its low to its high end, and an open one its low end |
| `IstioRules.RuleAllowsIff` | api/v1alpha1/violation_record.go:190-222 | a rule allows an identity and port exactly when it has no From or one that is open, names "*" or the identity, and likewise for the port |
| `IstioRules.IstioPayload.UpsertLearnedRule` | internal/controller/learning_istio.go:52-89 | the nested loops compute the specified rules |
| `IstioRules.UpsertDecision` | internal/controller/learning_istio.go:52-89 | for every ruleset: no other identity's decision changes; the principal gains exactly the port and loses exactly what an open port list let through |
| `IstioRules.UpsertFrame` | internal/controller/learning_istio.go:52-89 | learning appends one rule for a new principal, or gives the port to the first To entry of the first rule for that principal alone unless it is listed, and touches no other rule |
| `IstioRules.LearnedIsAllowed` | internal/controller/learning_istio.go:52-89 | a learned pair is allowed afterwards, for every ruleset |
| `IstioRules.LearningCanRevoke` | internal/controller/learning_istio.go:60-75 | a ruleset for which learning a port revokes another one |
| `IstioRules.LearnAllExact` | internal/controller/learning_istio.go:34-89 | from rules whose first entry lists a port, learning any sequence allows what was allowed plus what was learned |
| `IstioRules.LearnFromEmptyExact` | internal/controller/learning_istio.go:34-89 | from the empty spec the rules allow exactly the learned pairs |
| `IstioLearning.Controllers.ProcessIstioLearningEvent` | internal/controller/learning_istio.go:17-114 | the ingress proposal of the destination is created or extended exactly when nothing is promoted and the calls succeed, with its back end, selector and target; an error or panic exactly when a call fails, an endpoint that is needed is missing, or several policies are promoted |
| `IstioLearning.RunTracks` | internal/controller/learning_istio.go:17-114 | after every run with failing calls and promotion, the proposal or the promoted policy of a workload holds exactly the events learned for it, with the workload as its target and the selector of its first event |
| `IstioLearning.LearningExact` | internal/controller/learning_istio.go:17-114 | after every run of learning and promotion the kept rules allow an identity and port if and only if some learned event of that workload had that port and that identity or "*" |
| `IstioLearning.PromotedLearnsNothing` | internal/controller/learning_istio.go:104-113 | after promotion nothing more is learned for the workload |
| `IstioLearning.PromotedSchemaValid` | internal/controller/workloadnetworkpolicyproposal_controller.go:75-109 | promotion writes only policies the CRD schema accepts, as long as the learned workloads have labels |
| `ProposalNames.ProposalNameInjective` | internal/controller/workload_selectors.go:12-19 | proposal names are injective in kind, name and direction |
| `ProposalNames.OwnerRefFromProposalName` | internal/controller/workloadnetworkpolicyproposal_controller.go:123-153 | the inverse: it answers exactly on the names the learner gives, with the encoded kind and name |
| `TargetIndex.TargetIndexKeyInjective` | internal/workload/target_index.go:29-31 | the index key is injective when kind and direction hold no slash, whatever the name holds |
| `TargetIndex.IndexedIff` | internal/workload/target_index.go:34-44 | a policy is indexed exactly when kind, name and direction are all set |
| `TargetIndex.IndexEqualsTuple` | internal/workload/target_index.go:29-44 | on schema-valid policies the string index answers the (targetRef, direction) question |
| `Admission.ValidateUniqueTarget` | internal/controller/workloadnetworkpolicy_webhook.go:68-116 | allowed exactly when the target is incomplete, or the list succeeds and no other live policy has it; the conflicts are those policies |
| `Admission.ValidateUpdate` | internal/controller/workloadnetworkpolicy_webhook.go:51-59 | only live policies that change their target are checked |
| `Admission.UpdateAllowedIff` | internal/controller/workloadnetworkpolicy_webhook.go:51-59 | an update is admitted exactly when the object is being deleted, keeps targetRef and direction, or moves to a free target and the list succeeds |
| `Admission.RejectsExactlyTakenTargets` | internal/controller/workloadnetworkpolicy_webhook.go:68-125 | on schema-valid policies the request is rejected exactly when a policy of the namespace that is not being deleted and has another name and UID has its targetRef and direction |
| `Admission.AdmissionInvariant` | internal/controller/workloadnetworkpolicy_webhook.go:42-116 | over every serial run of admitted creates, updates and deletes from nothing, no two live policies of a namespace share a target, so a listed group holds at most one live policy |
| `Admission.UniqueTargetsByTuple` | internal/workload/target_index.go:34-44 | the invariant in terms of targetRef and direction |
| `Admission.StaleListsAdmitDuplicates` | internal/controller/workloadnetworkpolicy_webhook.go:68-91 | two creates that list the same earlier state are both admitted and break uniqueness |
| `SelectorScope.WorkloadTemplates` | internal/controller/workloadnetworkpolicy_selector_scope.go:142-191 | one template for every Deployment, StatefulSet and DaemonSet, and no other |
| `SelectorScope.MatchWorkloadTemplates` | internal/controller/workloadnetworkpolicy_selector_scope.go:72-92 | whether the target is listed, whether it matches, and exactly the other workloads that match |
| `SelectorScope.OwnerTestExact` | internal/controller/workloadnetworkpolicy_pod_scope.go:51-94 | the ownership test accepts a Pod exactly when the live target controls it, directly or through its live ReplicaSet |
| `SelectorScope.PodSelectorOverlaps` | internal/controller/workloadnetworkpolicy_pod_scope.go:21-49 | the matching Pods that do not belong to the target, or an error exactly when the list or the read of a needed ReplicaSet fails |
| `SelectorScope.CheckSelectorScope` | internal/controller/workloadnetworkpolicy_selector_scope.go:42-140 | the reason is the declarative verdict over all workloads and Pods, and an error is returned exactly when a call the verdict needs fails |
| `SelectorScope.VerdictIff` | internal/controller/workloadnetworkpolicy_selector_scope.go:94-140 | each of the four reasons, exactly: a missed target first, then a selector that reaches another workload or a stray Pod, then a missing target |
| `SelectorScope.ScopeErrorIff` | internal/controller/workloadnetworkpolicy_selector_scope.go:42-70 | an error exactly when the selector does not compile, a workload list fails, or the Pods are needed and their list or a ReplicaSet of one cannot be read |
| `SelectorScope.PolicySelectorIs` | internal/controller/workloadnetworkpolicy_selector_scope.go:46-56 | the selector is the pod selector of a Kubernetes policy and the labels alone of an Istio one |
| `SelectorScope.StaleOwnersDoNotCount` | internal/controller/workloadnetworkpolicy_pod_scope.go:51-94 | a Pod of a replaced or missing ReplicaSet, or of an earlier workload of the same name, does not belong to the target |
| `SelectorScope.RetainedIff` | internal/controller/workloadnetworkpolicy_retained_policy.go:16-61 | a retained selector is reported as overlapping exactly when it reaches another workload or a stray Pod |
| `SelectorScope.ValidIffCoversOnly` | internal/controller/workloadnetworkpolicy_selector_scope.go:94-140 | SelectorScopeValid if and only if the target exists and matches, no other workload matches, and every matching Pod is controlled by the target with that UID |
| `SelectorScope.CheckRetained` | internal/controller/workloadnetworkpolicy_retained_policy.go:16-61 | an object left in place is reported as overlapping exactly when its selector covers another workload or a stray Pod |
| `Duplicates.OldestWorkloadNetworkPolicy` | internal/controller/workloadnetworkpolicy_duplicate_target.go:102-116 | a policy of the list that none was created before, and the first by name of those created at the same time |
| `Text.StringLessIff` | internal/controller/workloadnetworkpolicy_duplicate_target.go:111-112 | names are ordered by their first difference, and a proper prefix comes first |
| `Duplicates.MinimumIsOldest` | internal/controller/workloadnetworkpolicy_duplicate_target.go:102-116 | whatever the list order, the minimum is the group's one oldest policy |
| `Duplicates.CheckDuplicateTarget` | internal/controller/workloadnetworkpolicy_duplicate_target.go:46-100 | a conflict exactly for two or more policies with the target, won exactly by the one created first, or first by name among those created at that time |
| `Duplicates.OneWinner` | internal/controller/workloadnetworkpolicy_duplicate_target.go:46-116 | every duplicate group has exactly one member that is told it may render |
| `Duplicates.DuplicateTargetPolicies` | internal/controller/workloadnetworkpolicy_duplicate_target.go:141-172 | exactly the other policies with the same target are requeued |
| `Duplicates.RequeueComplete` | internal/controller/workloadnetworkpolicy_duplicate_target.go:118-172 | when one policy is created, changed or deleted, every other policy whose conflict or winner changes is requeued |
| `DataPlane.ControllerReferenceSticks` | internal/controller/workloadnetworkpolicy_reconcile_k8s.go:51-56 | after SetControllerReference the policy is the controller, and setting it again changes nothing |
| `DataPlane.ControllerReferenceKeepsOthers` | internal/controller/workloadnetworkpolicy_reconcile_k8s.go:51-56 | owner references to other objects stay |
| `DataPlane.SameObjectIff` | internal/controller/workloadnetworkpolicy_reconcile_k8s.go:51-56 | references of one API group are to the same object exactly when kind and name agree, whatever the version and UID |
| `DataPlane.GroupOfOthers` | internal/controller/workloadnetworkpolicy_reconcile_k8s.go:51-56 | a version without a slash is of the core group, and one with two slashes is malformed |
| `DataPlane.RenderMatches` | internal/controller/workloadnetworkpolicy_reconcile_istio.go:38-52 | a rendered object has the wanted spec, label, dry-run annotation and controller |
| `DataPlane.RenderSettled` | internal/controller/workloadnetworkpolicy_reconcile_istio.go:38-52 | rendering over a matching object changes nothing |
| `DataPlane.RenderKeepsOthers` | internal/controller/policy_labels.go:14-21 | rendering keeps all other labels and annotations |
| `DataPlane.TouchesOnlyOwn` | internal/controller/workloadnetworkpolicy_reconcile_k8s.go:16-43 | only the object with the policy's name changes, and only if absent or controlled by the policy |
| `DataPlane.SuccessSettles` | internal/controller/workloadnetworkpolicy_reconcile_k8s.go:16-62 | success leaves the object as wanted; an error leaves it unchanged, or as wanted when only the answer was lost |
| `DataPlane.SettledStays` | internal/controller/workloadnetworkpolicy_reconcile_k8s.go:16-62 | an object as wanted is left alone, whatever the calls do |
| `DataPlane.ErrorIff` | internal/controller/workloadnetworkpolicy_reconcile_k8s.go:16-62 | exactly when a reconciliation succeeds and exactly when it reports an ownership conflict, for every outcome of its calls |
| `DataPlane.OwnReconciles` | internal/controller/workloadnetworkpolicy_reconcile_k8s.go:16-62 | with succeeding calls, a free name or an object the policy controls under its own name always ends as the policy asks for |
| `Reconcile.PopulateAuthorizationPolicy` | internal/controller/workloadnetworkpolicy_reconcile_istio.go:58-99 | the nested copy loops reproduce the rules and selector labels, with action ALLOW |
| `Reconcile.Reconciler.ReconcileKubernetesPolicy` | internal/controller/workloadnetworkpolicy_reconcile_k8s.go:16-62 | the NetworkPolicies and the error after the guarded write or delete |
| `Reconcile.Reconciler.ReconcileIstioPolicy` | internal/controller/workloadnetworkpolicy_reconcile_istio.go:22-56 | the AuthorizationPolicies and the error after the guarded write |
| `Reconcile.Reconciler.ReconcilePolicy` | internal/controller/workloadnetworkpolicy_controller.go:90-129 | the cluster and the reported reason after scope check and rendering |
| `Reconcile.Reconciler.UpdateReadyCondition` | internal/controller/workloadnetworkpolicy_selector_scope.go:193-217 | unless the patch is rejected, the Ready condition found afterwards carries the reason for the current generation, and conditions of other types, other fields and other policies are as before |
| `Conditions.SetStatusConditionExact` | internal/controller/workloadnetworkpolicy_selector_scope.go:193-206 | the condition set is the one found, conditions of other types keep value and order, and a second set replaces the first |
| `Reconcile.Reconciler.Reconcile` | internal/controller/workloadnetworkpolicy_controller.go:59-86 | the whole cluster after one reconcile |
| `Reconcile.StepPolicies` | internal/controller/workloadnetworkpolicy_controller.go:59-86 | a step changes nothing of the policies but its own Ready condition: other policies, other fields and conditions of other types stay |
| `Reconcile.StepTouchesOnlyOwn` | internal/controller/workloadnetworkpolicy_controller.go:59-129 | a step writes at most the object with its policy's name, and only if that is absent or controlled by the policy |
| `Reconcile.MayRenderIff` | internal/controller/workloadnetworkpolicy_controller.go:70-107 | a step renders exactly when the scope could be evaluated, no older policy has the target, and the selector does not miss an existing target or the mode is monitor |
| `Reconcile.WriterIsOldest` | internal/controller/workloadnetworkpolicy_controller.go:70-76 | whoever writes the data plane is the oldest policy of its target |
| `Reconcile.OneWriter` | internal/controller/workloadnetworkpolicy_duplicate_target.go:46-116 | whatever the calls return, at most one of the policies that share a target can write the data plane |
| `Reconcile.MismatchWritesNothing` | internal/controller/workloadnetworkpolicy_controller.go:100-107 | outside monitor mode a selector that misses an existing target stops every write |
| `Reconcile.RenderingSettles` | internal/controller/workloadnetworkpolicy_controller.go:109-128 | a step that may render settles the object, or reports an error and changes no object |
| `ReconcileReasons.StepReasonExact` | internal/controller/workloadnetworkpolicy_controller.go:59-129 | which reason a step reports, in order of precedence: none when policies cannot be listed, duplicate target, none when the scope cannot be evaluated, what is retained when the target is missed, the data-plane error, the scope |
| `ReconcileReasons.RetainedReasonExact` | internal/controller/workloadnetworkpolicy_retained_policy.go:16-80 | when the target is missed, an object left in place is reported as overlapping exactly when its own selector reaches beyond the target, and else the missed target is reported |
| `ReconcileRuns.ForeignUntouched` | internal/controller/workloadnetworkpolicy_reconcile_k8s.go:25-34 | over every run, with other writers in between that neither touch the object nor make a policy its owner, an object that is not the controller's is never written or deleted by it |
| `ReconcileRuns.WinnerSettles` | internal/controller/workloadnetworkpolicy_controller.go:59-129 | a step of a policy that may render and reports no error leaves its object matching spec and mode |
| `ReconcileRuns.SettledForever` | internal/controller/workloadnetworkpolicy_controller.go:59-129 | a matching object stays exactly as it is over every run of reconciles, as long as other writers leave that object and the policy's spec and identity alone |
| `ReconcileRuns.ReadyVouches` | internal/controller/workloadnetworkpolicy_controller.go:59-129 | when a step reports SelectorScopeValid, no other policy has the target, the selector covers exactly the target workload, and the object is the one spec and mode ask for, field by field |
| `ReconcileRuns.LoserFrozen` | internal/controller/workloadnetworkpolicy_controller.go:70-76 | over every run in which an older policy has the target whenever the policy is reconciled, it gets no object, and one it had stays as it was |
| `ReconcileRuns.TakeOverLeavesBoth` | internal/controller/workloadnetworkpolicy_controller.go:59-86 | when a policy rendered and an older one moves to its target and renders, both objects are in place afterwards |
| `ReconcileRuns.TwoObjectsForOneTarget` | internal/controller/workloadnetworkpolicy_controller.go:59-86 | a concrete run that ends with two objects for one target |

## Left out

- gRPC and OTLP servers, scrapers, flow parsers, the ztunnel log parser, checkpoints, certificates and metrics registration: I/O and per-field mapping. Their output is arbitrary observations and learning events, with a supported workload kind, as the scrapers ensure.
- Label-selector semantics and selector formatting: library code. The results hold for every matcher and every formatter.
- Condition messages and transition times, log lines, the name list in the duplicate-target message, and the two transition counters.
- The error value a reconcile returns, which only decides when it is retried.
- int64 overflow of ViolationCount and of the ring position: integers are unbounded.
- Truncation of persisted timestamps to seconds: times are integers and are stored as they are.
- Stale informer reads in the status sync and the reconcilers: each sync and each reconcile reads the last persisted objects. Attribution keeps snapshot and cache apart.
- Interference between the ownership check and the write of one reconcile: a reconcile is one step, with other writers before and after it.
- Learning runs that mix the two providers: `KubernetesLearning` and `IstioLearning` runs are for one provider at a time.
- Edits and deletions of promoted policies by users inside a learning run, and the owner references set on proposals; the failures of setting them and the drop of orphans are modelled.
- Byte order and Unicode: strings are sequences of characters, and lower-casing is ASCII.
- Defaulting by the API server, watches and event predicates, except the requeue map of duplicate targets.
- The agent pull protocol, whose methods are unimplemented in the repository.
- Recompute.CollectAcknowledgements: does not fix which of several annotations for one ID is taken, because map iteration order does not either; every law holds for each choice.
- Newest.SortStable: the algorithm is insertion, while the library's differs; the result is determined by `Newest.SortIsTheOnlyOne`.
