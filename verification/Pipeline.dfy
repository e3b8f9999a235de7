/** The learning half and the status half of the controller fit together: a monitored flow
    that was never learned becomes a recorded violation of the policy promoted from that
    very workload and direction. */
module Pipeline {
  import opened Api
  import opened ProposalNames
  import opened TargetIndex
  import opened KubernetesLearning
  import opened Attribution
  import Ledger
  import Merge
  import Recording
  import Recompute
  import StatusSync

  /** A proposal or policy is named after the workload and direction it targets. */
  ghost predicate NamedAfterTarget(k: NamespacedName, spec: PolicySpec) {
    TargetPopulated(spec) && k.name == ProposalName(spec.targetRef.kind, spec.targetRef.name, spec.direction)
  }

  ghost predicate AllNamed(c: Cluster) {
    && (forall k :: k in c.proposals ==> NamedAfterTarget(k, c.proposals[k]))
    && (forall k :: k in c.policies ==> c.policies[k].key == k && NamedAfterTarget(k, c.policies[k].spec))
  }

  lemma LearnedNamed(fmt: Formatter, current: Option<PolicySpec>, e: Event)
    requires Learnable(e.workload.ownerKind, e.workload.ownerName, e.direction)
    ensures NamedAfterTarget(ProposalKey(e.workload, e.direction), LearnedProposal(fmt, current, e))
  {
  }

  lemma PromotedNamed(c: Cluster, key: NamespacedName, promote: Option<string>, env: Env, k: NamespacedName)
    requires AllNamed(c)
    ensures var d := ProposalStep(c, key, promote, env);
            && (k in d.proposals ==> k in c.proposals && d.proposals[k] == c.proposals[k])
            && (k in d.policies ==> d.policies[k].key == k && NamedAfterTarget(k, d.policies[k].spec))
  {
  }

  lemma NextNamed(fmt: Formatter, c: Cluster, s: Step)
    requires AllNamed(c) && ValidStep(s)
    ensures AllNamed(Next(fmt, c, s))
  {
    match s
    case Observe(e, _, _) => LearnedNamed(fmt, Lookup(c.proposals, ProposalKey(e.workload, e.direction)), e);
    case Reconcile(key, promote, env) => forall k { PromotedNamed(c, key, promote, env, k); }
  }

  lemma {:induction false} RunNamed(fmt: Formatter, run: seq<Step>)
    requires ValidRun(run)
    ensures AllNamed(After(fmt, run))
  {
    if run != [] {
      var last := run[|run| - 1];
      assert ValidStep(last);
      RunNamed(fmt, run[..|run| - 1]);
      NextNamed(fmt, After(fmt, run[..|run| - 1]), last);
    }
  }

  /** Promotion never creates two policies for one workload and direction. */
  lemma PromotedTargetsUnique(c: Cluster, w: WorkloadRef, direction: string)
    requires AllNamed(c) && Learnable(w.ownerKind, w.ownerName, direction)
    ensures SchemaValid(c.policies)
    ensures ListByTarget(c.policies, w.namespace, w.ownerKind, w.ownerName, direction) <= {ProposalKey(w, direction)}
  {
  }

  lemma ObservedSubject(policyName: string, e: Event, now: int)
    requires Learnable(e.workload.ownerKind, e.workload.ownerName, e.direction) && e.workload.namespace != ""
    ensures ViolationSubject(GenerateObservation(policyName, e, now)) == Some(e.workload)
  {
  }

  /** The same policies as far as attribution looks: status and annotations aside. */
  ghost predicate SameTargets(snapshot: PolicyMap, policies: PolicyMap) {
    && snapshot.Keys == policies.Keys
    && forall k :: k in policies ==> snapshot[k].key == policies[k].key && snapshot[k].spec == policies[k].spec
  }

  /** End to end: after any run of learning and promotion, observing a flow the promoted
      monitor policy never learned records one observation, and the attribution chain,
      from any cycle built on those policies and whatever objects exist in the data
      plane, gives it to exactly that policy. */
  lemma UnlearnedFlowReachesItsPolicy(
    fmt: Formatter, run: seq<Step>, e: Event, now: int, writeOk: bool, cycle: Cycle, live: Live)
    requires ValidRun(run) && Learnable(e.workload.ownerKind, e.workload.ownerName, e.direction)
    requires e.workload.namespace != ""
    requires var c, key := After(fmt, run), ProposalKey(e.workload, e.direction);
             && key in c.policies && c.policies[key].spec.mode != PROTECT
             && !LearnedLike(fmt, EventsOf(fmt, run, e.workload, e.direction), e)
             && BuiltFrom(cycle) && SameTargets(cycle.snapshot, c.policies)
             && live.cache == cycle.snapshot && live.listOk
    ensures var c, key := After(fmt, run), ProposalKey(e.workload, e.direction);
            var obs := GenerateObservation(key.name, e, now);
            && ObserveStep(fmt, c, e, now, writeOk).observations == c.observations + [obs]
            && Reports(obs, e, key.name, now)
            && Attribute(obs, cycle, live).0 == Attributed(key)
  {
    var c, key := After(fmt, run), ProposalKey(e.workload, e.direction);
    var obs := MonitorReportsUnlearned(fmt, run, e, now, writeOk);
    RunNamed(fmt, run);
    RunTracks(fmt, run, e.workload, e.direction);
    PromotedTargetsUnique(c, e.workload, e.direction);
    ObservedSubject(key.name, e, now);
    var w := e.workload;
    assert key in ListByTarget(c.policies, w.namespace, w.ownerKind, w.ownerName, e.direction);
    assert ListByTarget(c.policies, w.namespace, w.ownerKind, w.ownerName, e.direction) == {key};
    assert ListByTarget(cycle.snapshot, w.namespace, w.ownerKind, w.ownerName, e.direction) == {key};
    AttributionRefines(obs, cycle, live);
  }

  /** The record is of the flow of the event, no older than it, and names the policy. */
  ghost predicate RecordsFlow(r: ViolationRecord, e: Event, key: NamespacedName, now: int) {
    && (e.direction == EGRESS ==>
          Merge.SameEndpoint(r.info.source, e.workload) && Merge.SameEndpoint(r.info.dest, e.peer))
    && (e.direction == INGRESS ==>
          Merge.SameEndpoint(r.info.source, e.peer) && Merge.SameEndpoint(r.info.dest, e.workload))
    && r.info.protocol == e.protocol && r.info.dstPort == e.dstPort && r.info.action == MONITOR
    && r.info.denyingNamespace == key.namespace && r.info.denyingName == key.name && r.info.timestamp >= now
  }

  lemma RecordOfFlow(r: ViolationRecord, obs: Observation, e: Event, key: NamespacedName, now: int)
    requires Recording.RecordOf(r, obs, key) && Reports(obs, e, key.name, now)
    ensures RecordsFlow(r, e, key, now)
  {
  }

  lemma DescribedFlow(b: ViolationRecord, obs: Observation, e: Event, key: NamespacedName, now: int)
    requires StatusSync.Describes(b, obs, key) && Reports(obs, e, key.name, now)
    ensures RecordsFlow(b, e, key, now)
  {
  }

  /** And through the sync: in a cycle that drains the observation and whose status patch
      for the policy is not rejected, the flow is counted in that policy and the status that
      is persisted holds a record of it, unless the policy allows the flow, the violation is
      acknowledged in that very cycle, or a hundred other violations are as new. */
  lemma UnlearnedFlowIsRecorded(
    fmt: Formatter, run: seq<Step>, e: Event, now: int, before: StatusSync.LedgerMap, drained: seq<Observation>,
    i: nat, policies: map<NamespacedName, seq<Ownership.OwnerRef>>, live: nat -> Live,
    patching: NamespacedName -> StatusSync.Patching, verdicts: seq<Verdict>, groups: StatusSync.Groups,
    steps: map<NamespacedName, Ledger.Step>, after: StatusSync.LedgerMap) returns (r: ViolationRecord)
    requires ValidRun(run) && Learnable(e.workload.ownerKind, e.workload.ownerName, e.direction)
    requires e.workload.namespace != ""
    requires var c, key := After(fmt, run), ProposalKey(e.workload, e.direction);
             && key in c.policies && c.policies[key].spec.mode != PROTECT
             && !LearnedLike(fmt, EventsOf(fmt, run, e.workload, e.direction), e)
             && SameTargets(StatusSync.Policies(before), c.policies) && Ledger.Sound(before[key])
             && i < |drained| && drained[i] == GenerateObservation(key.name, e, now)
             && patching(key).outcome != Ledger.Rejected
    requires live(i).cache == StatusSync.Policies(before) && live(i).listOk
    requires StatusSync.CycleStep(
               fmt, before, drained, policies, live, patching, verdicts, groups, steps, after)
    ensures var key := ProposalKey(e.workload, e.direction);
            && key in before && key in after && key in steps && steps[key].Sync?
            && var p, status := before[key].policy, after[key].policy.status;
               var batch := StatusSync.GroupIn(groups, key);
               && (exists b :: b in batch && RecordsFlow(b, e, key, now))
               && status.violationCount == p.status.violationCount + |batch|
               && status.violations == Recompute.Remaining(fmt, p, batch, steps[key].acks)
               && RecordsFlow(r, e, key, now) && Recording.Recorded(fmt, p, batch, steps[key].acks, r)
  {
    var key := ProposalKey(e.workload, e.direction);
    var cycle := StatusSync.CycleOf(StatusSync.Policies(before), policies);
    UnlearnedFlowReachesItsPolicy(fmt, run, e, now, true, cycle, live(i));
    assert verdicts[i] == Attributed(key);
    assert key in StatusSync.Policies(before);
    r := Recording.AttributedIsRecorded(
      fmt, before, drained, policies, live, patching, verdicts, groups, steps, after, i, key);
    var b :| b in StatusSync.GroupIn(groups, key) && StatusSync.Describes(b, drained[i], key);
    RecordOfFlow(r, drained[i], e, key, now);
    DescribedFlow(b, drained[i], e, key, now);
  }
}
