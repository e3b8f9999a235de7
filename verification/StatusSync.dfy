/** The status sync cycle (internal/controller/workloadnetworkpolicystatus_sync.go): drain
    the buffer, attribute every observation, and process every policy. Each cycle reads
    the last persisted policies. */
module StatusSync {
  import opened Api
  import opened RingBuffer
  import opened Recompute
  import opened Ledger
  import opened Ownership
  import opened TargetIndex
  import opened Attribution
  import opened Sums

  // ----- grouping observations by policy -----

  /** The record an observation becomes: it names the policy it is attributed to. */
  function ToRecord(obs: Observation, k: NamespacedName): ViolationRecord {
    ViolationRecord(obs.info.(denyingNamespace := k.namespace, denyingName := k.name), 0)
  }

  /** The record says what was observed, and names the policy; it has no ID yet. */
  ghost predicate Describes(r: ViolationRecord, obs: Observation, k: NamespacedName) {
    && r.info.timestamp == obs.info.timestamp && r.info.source == obs.info.source && r.info.dest == obs.info.dest
    && r.info.protocol == obs.info.protocol && r.info.dstPort == obs.info.dstPort && r.info.action == obs.info.action
    && r.info.denyingNamespace == k.namespace && r.info.denyingName == k.name && r.id == 0
  }

  /** The records of the first n observations that belong to k, in order. */
  function GroupTo(observations: seq<Observation>, verdicts: seq<Verdict>, k: NamespacedName, n: nat):
    seq<ViolationRecord>
    requires n <= |observations| && n <= |verdicts|
  {
    if n == 0 then []
    else
      var before := GroupTo(observations, verdicts, k, n - 1);
      if verdicts[n - 1] == Attributed(k) then before + [ToRecord(observations[n - 1], k)] else before
  }

  function UnattributedTo(verdicts: seq<Verdict>, n: nat): nat
    requires n <= |verdicts|
  {
    if n == 0 then 0 else UnattributedTo(verdicts, n - 1) + if verdicts[n - 1].Unattributed? then 1 else 0
  }

  ghost function Verdicts(observations: seq<Observation>, cycle: Cycle, live: nat -> Live): (v: seq<Verdict>)
    requires BuiltFrom(cycle)
    ensures |v| == |observations|
  {
    seq(|observations|, i requires 0 <= i < |observations| => Attribute(observations[i], cycle, live(i)).0)
  }

  /** Which observations bump the disagreement counter. */
  ghost function Disagreements(observations: seq<Observation>, cycle: Cycle, live: nat -> Live): (d: seq<bool>)
    requires BuiltFrom(cycle)
    ensures |d| == |observations|
  {
    seq(|observations|, i requires 0 <= i < |observations| => Attribute(observations[i], cycle, live(i)).1)
  }

  ghost function CountTo(flags: seq<bool>, n: nat): nat
    requires n <= |flags|
  {
    if n == 0 then 0 else CountTo(flags, n - 1) + if flags[n - 1] then 1 else 0
  }

  function GroupIn(groups: map<NamespacedName, seq<ViolationRecord>>, k: NamespacedName): seq<ViolationRecord> {
    if k in groups then groups[k] else []
  }

  lemma GroupsAdvance(
    observations: seq<Observation>, verdicts: seq<Verdict>, i: nat, groups: map<NamespacedName, seq<ViolationRecord>>,
    groups': map<NamespacedName, seq<ViolationRecord>>)
    requires i < |observations| == |verdicts|
    requires forall k :: GroupIn(groups, k) == GroupTo(observations, verdicts, k, i)
    requires groups' == if verdicts[i].Unattributed? then groups
                        else var k := verdicts[i].key;
                             groups[k := GroupIn(groups, k) + [ToRecord(observations[i], k)]]
    ensures forall k :: GroupIn(groups', k) == GroupTo(observations, verdicts, k, i + 1)
  {
    forall k
      ensures GroupIn(groups', k) == GroupTo(observations, verdicts, k, i + 1)
    {
    }
  }

  /** correlateViolationsToWNPs, with the two counters of the attribution metrics. */
  method CorrelateViolations(observations: seq<Observation>, cycle: Cycle, live: nat -> Live)
    returns (groups: map<NamespacedName, seq<ViolationRecord>>, unattributed: nat, disagreements: nat,
             ghost verdicts: seq<Verdict>)
    requires BuiltFrom(cycle)
    ensures verdicts == Verdicts(observations, cycle, live)
    ensures forall k :: GroupIn(groups, k) == GroupTo(observations, verdicts, k, |observations|)
    ensures unattributed == UnattributedTo(verdicts, |observations|)
    ensures disagreements == CountTo(Disagreements(observations, cycle, live), |observations|)
  {
    groups, unattributed, disagreements := map[], 0, 0;
    verdicts := Verdicts(observations, cycle, live);
    ghost var flags := Disagreements(observations, cycle, live);
    for i := 0 to |observations|
      invariant forall k :: GroupIn(groups, k) == GroupTo(observations, verdicts, k, i)
      invariant unattributed == UnattributedTo(verdicts, i)
      invariant disagreements == CountTo(flags, i)
    {
      var (verdict, disagrees) := Attribute(observations[i], cycle, live(i));
      assert verdicts[i] == verdict && flags[i] == disagrees;
      ghost var before := groups;
      if disagrees {
        disagreements := disagreements + 1;
      }
      match verdict {
        case Unattributed(_) =>
          unattributed := unattributed + 1;
        case Attributed(k) =>
          groups := groups[k := GroupIn(groups, k) + [ToRecord(observations[i], k)]];
      }
      GroupsAdvance(observations, verdicts, i, before, groups);
    }
  }

  /** A group is an order-preserving subsequence: its j-th record comes from the
      idx[j]-th observation, and no observation of the policy is skipped. */
  lemma {:induction false} GroupIsSubsequence(
    observations: seq<Observation>, verdicts: seq<Verdict>, k: NamespacedName, n: nat) returns (idx: seq<nat>)
    requires n <= |observations| && n <= |verdicts|
    ensures |idx| == |GroupTo(observations, verdicts, k, n)|
    ensures forall j :: 0 <= j < |idx| ==>
                          idx[j] < n && verdicts[idx[j]] == Attributed(k) &&
                          Describes(GroupTo(observations, verdicts, k, n)[j], observations[idx[j]], k)
    ensures forall i, j :: 0 <= i < j < |idx| ==> idx[i] < idx[j]
    ensures forall i :: 0 <= i < n && verdicts[i] == Attributed(k) ==> i in idx
  {
    if n == 0 {
      idx := [];
    } else {
      idx := GroupIsSubsequence(observations, verdicts, k, n - 1);
      if verdicts[n - 1] == Attributed(k) {
        idx := idx + [n - 1];
      }
    }
  }

  function GroupSize(observations: seq<Observation>, verdicts: seq<Verdict>, n: nat): NamespacedName -> int
    requires n <= |observations| && n <= |verdicts|
  {
    k => |GroupTo(observations, verdicts, k, n)|
  }

  /** Every observation is in exactly one group or unattributed. */
  lemma {:induction false} GroupsAccount(
    observations: seq<Observation>, verdicts: seq<Verdict>, keys: set<NamespacedName>, n: nat)
    requires n <= |observations| && n <= |verdicts|
    requires forall i :: 0 <= i < n && verdicts[i].Attributed? ==> verdicts[i].key in keys
    ensures Sum(keys, GroupSize(observations, verdicts, n)) + UnattributedTo(verdicts, n) == n
  {
    var size := GroupSize(observations, verdicts, n);
    if n == 0 {
      SumZero(keys, size);
    } else {
      GroupsAccount(observations, verdicts, keys, n - 1);
      var before := GroupSize(observations, verdicts, n - 1);
      if verdicts[n - 1].Attributed? {
        SumBump(keys, before, size, verdicts[n - 1].key, 1);
      } else {
        SumSame(keys, before, size);
      }
    }
  }

  lemma AttributedInSnapshot(obs: Observation, cycle: Cycle, live: Live)
    requires BuiltFrom(cycle) && Attribute(obs, cycle, live).0.Attributed?
    ensures Attribute(obs, cycle, live).0.key in cycle.snapshot
  {
    AttributedHow(obs, cycle, live);
  }

  // ----- the cycle -----

  /** What the API server and other writers do while one policy is processed. */
  datatype Patching = Patching(
    now: int, outcome: PatchOutcome, conditions: seq<Condition>, annotations: map<string, string>,
    annotationsPersisted: bool)

  ghost function CycleOf(snapshot: PolicyMap, policies: map<NamespacedName, seq<OwnerRef>>): Cycle {
    Cycle(snapshot,
          map k | k in policies :: OwnerFrom(policies[k], k.namespace, snapshot, 0),
          set k | k in snapshot && TargetOf(snapshot[k]).Some? && Duplicated(snapshot, TargetOf(snapshot[k]).value) ::
            TargetOf(snapshot[k]).value)
  }

  lemma CycleIsBuilt(snapshot: PolicyMap, policies: map<NamespacedName, seq<OwnerRef>>)
    requires SchemaValid(snapshot)
    ensures BuiltFrom(CycleOf(snapshot, policies))
  {
    var cycle := CycleOf(snapshot, policies);
    forall t | Duplicated(snapshot, t)
      ensures t in cycle.duplicates
    {
      var targeting := Targeting(snapshot, snapshot.Keys, t);
      assert targeting != {};
      var k :| k in targeting;
    }
  }

  type LedgerMap = map<NamespacedName, Ledger>

  /** wnpByKey: the policies of the cycle. */
  function Policies(ledgers: LedgerMap): PolicyMap { map k | k in ledgers :: ledgers[k].policy }

  function CountOfPolicy(ledgers: LedgerMap): NamespacedName -> int {
    k => if k in ledgers then ledgers[k].policy.status.violationCount else 0
  }

  type Groups = map<NamespacedName, seq<ViolationRecord>>

  function Sizes(groups: Groups): NamespacedName -> int {
    k => |GroupIn(groups, k)|
  }

  /** The observations of a policy whose status patch is rejected. */
  function FailedSizes(groups: Groups, patching: NamespacedName -> Patching): NamespacedName -> int {
    k => if patching(k).outcome == Rejected then |GroupIn(groups, k)| else 0
  }

  /** l' is what one sync with this batch, at this time and with these patch outcomes and
      concurrent writes, makes of l. */
  ghost predicate StepFor(
    fmt: Formatter, l: Ledger, batch: seq<ViolationRecord>, env: Patching, step: Step, l': Ledger)
  {
    && step.Sync?
    && step == Step.Sync(batch, env.now, step.acks, env.outcome, env.conditions, env.annotations,
                         env.annotationsPersisted)
    && Enabled(l, step) && l' == SyncStep(fmt, l, step)
  }

  /** What one sync adds to the persisted counter. */
  ghost function Increment(batch: seq<ViolationRecord>, env: Patching): int {
    if env.outcome == Rejected then 0 else |batch|
  }

  ghost predicate Adds(l: Ledger, l': Ledger, n: int) {
    && l'.policy.status.violationCount == l.policy.status.violationCount + n
    && l'.policy.key == l.policy.key && l'.policy.spec == l.policy.spec
  }

  /** A sync raises ViolationCount by its batch unless the status patch was rejected. */
  lemma StepGrowth(
    fmt: Formatter, l: Ledger, batch: seq<ViolationRecord>, env: Patching, step: Step, l': Ledger)
    requires StepFor(fmt, l, batch, env, step, l')
    ensures Adds(l, l', Increment(batch, env))
  {
    SyncOutcome(fmt, l, step);
  }

  class StatusSync {
    const fmt: Formatter
    const buffer: Buffer<Observation>
    var ledgers: LedgerMap

    /** Where every recorded observation went. */
    ghost var recorded: int
    ghost var overwritten: int
    ghost var unattributed: int
    ghost var lost: int
    ghost var persisted: int

    /** The counters found at the start, and those of policies deleted since. */
    ghost var initial: int
    ghost var removed: int

    ghost predicate Valid()
      reads this, buffer, buffer.buf
    {
      buffer.Valid() && ValidLedgers(ledgers) && AllSound(ledgers)
    }

    /** Conservation: what was recorded is overwritten, still buffered, unattributed,
        lost with a rejected status patch, or persisted; and what was persisted is in the
        counters of the policies, those at the start and those deleted aside. */
    ghost predicate Balanced()
      reads this, buffer
    {
      && recorded == overwritten + (|buffer.since| - buffer.drops) + unattributed + lost + persisted
      && initial + persisted == Total(ledgers) + removed
    }

    constructor (fmt: Formatter, buffer: Buffer<Observation>, ledgers: LedgerMap)
      requires buffer.Valid() && buffer.since == [] && ValidLedgers(ledgers) && AllSound(ledgers)
      ensures Valid() && Balanced() && this.fmt == fmt && this.buffer == buffer && this.ledgers == ledgers
      ensures recorded == overwritten == unattributed == lost == persisted == removed == 0
    {
      this.fmt, this.buffer, this.ledgers := fmt, buffer, ledgers;
      recorded, overwritten, unattributed, lost, persisted, removed := 0, 0, 0, 0, 0, 0;
      initial := Total(ledgers);
    }

    /** A scraper records an observation. */
    method Record(obs: Observation) returns (dropped: bool)
      requires Valid() && Balanced()
      modifies this`recorded, this`overwritten, buffer, buffer.buf
      ensures Valid() && Balanced() && recorded == old(recorded) + 1
      ensures overwritten == old(overwritten) + if dropped then 1 else 0
    {
      dropped := buffer.Record(obs);
      recorded := recorded + 1;
      if dropped {
        overwritten := overwritten + 1;
      }
    }

    // ----- what happens to the policies between cycles -----

    /** A user edits a policy. */
    method EditPolicy(key: NamespacedName, annotations: map<string, string>, spec: PolicySpec, generation: int)
      requires Valid() && Balanced() && key in ledgers
      requires TargetPopulated(spec) && Enabled(ledgers[key], Edit(annotations, spec, generation))
      modifies this`ledgers
      ensures Valid() && Balanced()
      ensures ledgers == old(ledgers)[key := Next(fmt, old(ledgers)[key], Edit(annotations, spec, generation))]
      ensures var p, q := old(ledgers)[key].policy, ledgers[key].policy;
              && q.annotations == annotations && q.spec == spec && q.generation == generation
              && q.status == p.status && q.key == p.key && q.uid == p.uid && q.labels == p.labels
    {
      ghost var after := Next(fmt, ledgers[key], Edit(annotations, spec, generation));
      EditKeeps(ledgers, key, after, fmt, annotations, spec, generation);
      var l := ledgers[key];
      var edited := l.(policy := l.policy.(annotations := annotations, spec := spec, generation := generation));
      assert edited == after;
      ledgers := ledgers[key := edited];
    }

    /** A policy is created, by promotion or by a user; it has no status yet. */
    method CreatePolicy(p: Policy)
      requires Valid() && Balanced() && p.key !in ledgers && TargetPopulated(p.spec) && Fresh(Ledger(p, []))
      modifies this`ledgers
      ensures Valid() && Balanced() && ledgers == old(ledgers)[p.key := Ledger(p, [])]
    {
      CreateKeeps(ledgers, p.key, Ledger(p, []));
      ledgers := ledgers[p.key := Ledger(p, [])];
    }

    method DeletePolicy(key: NamespacedName)
      requires Valid() && Balanced() && key in ledgers
      modifies this`ledgers, this`removed
      ensures Valid() && Balanced() && ledgers == old(ledgers) - {key}
      ensures removed == old(removed) + old(ledgers)[key].policy.status.violationCount
    {
      TotalDrops(ledgers, key);
      removed := removed + ledgers[key].policy.status.violationCount;
      ledgers := ledgers - {key};
    }

    // ----- one cycle -----

    /** processWorkloadNetworkPolicy: recompute on a copy, patch the status, emit, patch
        the annotations. */
    method ProcessWorkloadNetworkPolicy(key: NamespacedName, batch: seq<ViolationRecord>, env: Patching)
      returns (ok: bool, ghost step: Step, ghost after: Ledger)
      requires key in ledgers && BackendPopulated(ledgers[key].policy.spec)
      modifies this`ledgers
      ensures ledgers == old(ledgers)[key := after]
      ensures StepFor(fmt, old(ledgers)[key], batch, env, step, after)
      ensures ok <==> env.outcome == Persisted && env.annotationsPersisted
    {
      var wnp, emitted := ledgers[key].policy, ledgers[key].emitted;
      var newPolicy := new PolicyObject(fmt, wnp);
      var returned;
      ghost var acks;
      returned, acks := newPolicy.RecomputeStatus(batch, env.now);
      step := Step.Sync(batch, env.now, acks, env.outcome, env.conditions, env.annotations, env.annotationsPersisted);
      var patch := DiffStatus(wnp.status, newPolicy.Value().status);
      var annotationPatch := DiffAnnotations(wnp.annotations, newPolicy.Value().annotations);
      ok := false;
      if env.outcome != Rejected {
        wnp := wnp.(status := ApplyStatus(wnp.status.(conditions := env.conditions), patch));
      }
      if env.outcome == Persisted {
        emitted := emitted + returned;
        ok := env.annotationsPersisted;
        wnp := wnp.(annotations := if ok then ApplyAnnotations(env.annotations, annotationPatch) else env.annotations);
      }
      ledgers := ledgers[key := Ledger(wnp, emitted)];
      after := Ledger(wnp, emitted);
    }

    /** The same, as a step of the relation the cycle is measured by. */
    method ProcessOne(
      ghost rel: StepRelation, groups: Groups, patching: NamespacedName -> Patching, key: NamespacedName)
      returns (ghost step: Step, ghost after: Ledger)
      requires key in ledgers && BackendPopulated(ledgers[key].policy.spec) && Serves(rel, fmt, groups, patching)
      modifies this`ledgers
      ensures ledgers == old(ledgers)[key := after] && rel(key, old(ledgers)[key], step, after)
    {
      var ok;
      ok, step, after := ProcessWorkloadNetworkPolicy(key, GroupIn(groups, key), patching(key));
    }

    /** The loop over every policy, in any order. */
    method ProcessAll(ghost rel: StepRelation, groups: Groups, patching: NamespacedName -> Patching)
      returns (ghost steps: map<NamespacedName, Step>)
      requires ValidLedgers(ledgers) && Serves(rel, fmt, groups, patching)
      modifies this`ledgers
      ensures steps.Keys == ledgers.Keys == old(ledgers).Keys
      ensures AllStepped(rel, old(ledgers), steps, ledgers)
    {
      steps := map[];
      var rest := ledgers.Keys;
      while rest != {}
        invariant ledgers.Keys == old(ledgers).Keys && rest <= ledgers.Keys && steps.Keys == ledgers.Keys - rest
        invariant Untouched(old(ledgers), ledgers, rest)
        invariant AllStepped(rel, old(ledgers), steps, ledgers)
        decreases rest
      {
        var key :| key in rest;
        ghost var before := ledgers;
        ghost var step, after;
        step, after := ProcessOne(rel, groups, patching, key);
        SteppedOne(rel, old(ledgers), steps, before, key, step, after);
        steps := steps[key := step];
        rest := rest - {key};
      }
    }

    /** The first half of a cycle: drain the buffer and attribute what was drained. */
    method DrainAndCorrelate(policies: map<NamespacedName, seq<OwnerRef>>, live: nat -> Live)
      returns (groups: Groups, ghost verdicts: seq<Verdict>)
      requires buffer.Valid() && ValidLedgers(ledgers)
      modifies this`unattributed, buffer
      ensures buffer.Valid() && buffer.since == []
      ensures var drained := NewestFirst(old(buffer.since), buffer.capacity);
              && Correlated(Policies(ledgers), drained, policies, live, verdicts, groups)
              && |drained| == |old(buffer.since)| - old(buffer.drops)
              && unattributed == old(unattributed) + UnattributedTo(verdicts, |drained|)
    {
      var snapshot := Policies(ledgers);
      var owned := BuildOwnershipIndex(policies, snapshot);
      DrainAccounts(buffer.since, buffer.capacity);
      var observations := buffer.Drain();
      var duplicates := DuplicateTargets(snapshot);
      var cycle := Cycle(snapshot, owned, duplicates);
      CycleIsBuilt(snapshot, policies);
      assert cycle == CycleOf(snapshot, policies);
      var missing, disagreements;
      groups, missing, disagreements, verdicts := CorrelateViolations(observations, cycle, live);
      unattributed := unattributed + missing;
    }

    /** One cycle. `listOk` and `policiesListOk` are the outcomes of the two List calls,
        `policies` the NetworkPolicies listed, `live(i)` the client while the i-th
        observation is attributed. */
    method Sync(
      listOk: bool, policiesListOk: bool, policies: map<NamespacedName, seq<OwnerRef>>, live: nat -> Live,
      patching: NamespacedName -> Patching)
      returns (ok: bool, ghost verdicts: seq<Verdict>, ghost groups: Groups, ghost steps: map<NamespacedName, Step>)
      requires Valid() && Balanced()
      modifies this`ledgers, this`unattributed, this`lost, this`persisted, buffer
      ensures Valid() && Balanced()
      ensures ok <==> listOk && policiesListOk
      // an error before the drain leaves everything untouched
      ensures !ok ==> ledgers == old(ledgers) && buffer.since == old(buffer.since) &&
                      unattributed == old(unattributed) && lost == old(lost) && persisted == old(persisted)
      // otherwise the buffer is empty and every policy takes one step with its own group
      ensures ok ==> buffer.since == [] && ledgers.Keys == old(ledgers.Keys)
      ensures ok ==>
                var drained := NewestFirst(old(buffer.since), buffer.capacity);
                && CycleStep(fmt, old(ledgers), drained, policies, live, patching, verdicts, groups, steps, ledgers)
                && unattributed == old(unattributed) + UnattributedTo(verdicts, |drained|)
      // lost are exactly the groups whose status patch is rejected
      ensures ok ==> lost == old(lost) + Sum(ledgers.Keys, FailedSizes(groups, patching))
      // the increments counted as persisted are those of the persisted counters
      ensures ok ==> persisted - old(persisted) == Total(ledgers) - old(Total(ledgers))
      // no policy emits an ID again, and none of its retired IDs comes back
      ensures ok ==> AllExtend(old(ledgers), ledgers)
    {
      verdicts, groups, steps := [], map[], map[];
      if !listOk || !policiesListOk {
        return false, verdicts, groups, steps;
      }
      var violationsByPolicy;
      violationsByPolicy, verdicts := DrainAndCorrelate(policies, live);
      ghost var drained := NewestFirst(old(buffer.since), buffer.capacity);
      groups := violationsByPolicy;
      ghost var rel := StepRel(fmt, groups, patching);
      StepRelServes(fmt, groups, patching);
      steps := ProcessAll(rel, violationsByPolicy, patching);
      CycleDone(fmt, old(ledgers), drained, policies, live, patching, verdicts, groups, steps, ledgers);
      CycleSound(fmt, groups, patching, old(ledgers), steps, ledgers);
      persisted := persisted + Total(ledgers) - Total(old(ledgers));
      lost := lost + Sum(ledgers.Keys, FailedSizes(groups, patching));
      return true, verdicts, groups, steps;
    }
  }

  /** The drained observations were grouped by the verdicts of the cycle. */
  ghost predicate Correlated(
    snapshot: PolicyMap, drained: seq<Observation>, policies: map<NamespacedName, seq<OwnerRef>>, live: nat -> Live,
    verdicts: seq<Verdict>, groups: Groups)
  {
    && BuiltFrom(CycleOf(snapshot, policies))
    && verdicts == Verdicts(drained, CycleOf(snapshot, policies), live)
    && forall k :: GroupIn(groups, k) == GroupTo(drained, verdicts, k, |drained|)
  }

  ghost predicate ValidLedgers(ledgers: LedgerMap) {
    forall k :: k in ledgers ==>
                  && ledgers[k].policy.key == k
                  && TargetPopulated(ledgers[k].policy.spec)
                  && BackendPopulated(ledgers[k].policy.spec)
  }

  // ----- every ledger stays sound -----

  ghost predicate AllSound(ledgers: LedgerMap) { forall k :: k in ledgers ==> Sound(ledgers[k]) }

  ghost predicate AllExtend(before: LedgerMap, after: LedgerMap) {
    before.Keys == after.Keys && forall k :: k in before ==> Extends(before[k], after[k])
  }

  lemma EditKeeps(
    ledgers: LedgerMap, key: NamespacedName, l: Ledger, fmt: Formatter, annotations: map<string, string>,
    spec: PolicySpec, generation: int)
    requires ValidLedgers(ledgers) && AllSound(ledgers) && key in ledgers && TargetPopulated(spec)
    requires Enabled(ledgers[key], Edit(annotations, spec, generation))
    requires l == Next(fmt, ledgers[key], Edit(annotations, spec, generation))
    ensures ValidLedgers(ledgers[key := l]) && AllSound(ledgers[key := l])
    ensures Total(ledgers[key := l]) == Total(ledgers)
  {
    NextSound(fmt, ledgers[key], Edit(annotations, spec, generation));
    TotalGrows(ledgers, key, l, 0);
  }

  lemma CreateKeeps(ledgers: LedgerMap, key: NamespacedName, l: Ledger)
    requires ValidLedgers(ledgers) && AllSound(ledgers) && key !in ledgers
    requires Fresh(l) && l.policy.key == key && TargetPopulated(l.policy.spec)
    ensures ValidLedgers(ledgers[key := l]) && AllSound(ledgers[key := l])
    ensures Total(ledgers[key := l]) == Total(ledgers)
  {
    FreshIsSound(l);
    TotalAdds(ledgers, key, l);
  }

  lemma CycleSound(
    fmt: Formatter, groups: Groups, patching: NamespacedName -> Patching, before: LedgerMap,
    steps: map<NamespacedName, Step>, after: LedgerMap)
    requires steps.Keys == before.Keys == after.Keys && AllSound(before)
    requires AllStepped(StepRel(fmt, groups, patching), before, steps, after)
    ensures AllSound(after) && AllExtend(before, after)
  {
    forall k | k in before
      ensures Sound(after[k]) && Extends(before[k], after[k])
    {
      assert StepRel(fmt, groups, patching)(k, before[k], steps[k], after[k]);
      SyncIds(fmt, before[k], steps[k]);
    }
  }

  // ----- the sum of all persisted counters -----

  ghost function Total(ledgers: LedgerMap): int { Sum(ledgers.Keys, CountOfPolicy(ledgers)) }

  lemma TotalGrows(before: LedgerMap, key: NamespacedName, l: Ledger, d: int)
    requires key in before && l.policy.status.violationCount == before[key].policy.status.violationCount + d
    ensures Total(before[key := l]) == Total(before) + d
  {
    var after := before[key := l];
    assert after.Keys == before.Keys;
    SumBump(before.Keys, CountOfPolicy(before), CountOfPolicy(after), key, d);
  }

  lemma TotalAdds(before: LedgerMap, key: NamespacedName, l: Ledger)
    requires key !in before
    ensures Total(before[key := l]) == Total(before) + l.policy.status.violationCount
  {
    var after := before[key := l];
    assert after.Keys == before.Keys + {key};
    SumAdd(before.Keys, CountOfPolicy(after), key);
    SumSame(before.Keys, CountOfPolicy(before), CountOfPolicy(after));
  }

  lemma TotalDrops(before: LedgerMap, key: NamespacedName)
    requires key in before
    ensures Total(before - {key}) == Total(before) - before[key].policy.status.violationCount
  {
    var after := before - {key};
    assert after.Keys == before.Keys - {key};
    SumRemove(before.Keys, CountOfPolicy(before), key);
    SumSame(after.Keys, CountOfPolicy(before), CountOfPolicy(after));
  }

  // ----- the loop over the policies -----

  type StepRelation = (NamespacedName, Ledger, Step, Ledger) -> bool

  ghost function StepRel(fmt: Formatter, groups: Groups, patching: NamespacedName -> Patching): StepRelation {
    (k, l, step, l') => StepFor(fmt, l, GroupIn(groups, k), patching(k), step, l')
  }

  /** Every sync of a policy with its own group and outcome is in the relation. */
  ghost predicate Serves(rel: StepRelation, fmt: Formatter, groups: Groups, patching: NamespacedName -> Patching) {
    forall k, l, step, l' ::
      StepFor(fmt, l, GroupIn(groups, k), patching(k), step, l') ==> rel(k, l, step, l')
  }

  lemma StepRelServes(fmt: Formatter, groups: Groups, patching: NamespacedName -> Patching)
    ensures Serves(StepRel(fmt, groups, patching), fmt, groups, patching)
  {
  }

  ghost predicate Untouched(start: LedgerMap, current: LedgerMap, rest: set<NamespacedName>)
    requires rest <= start.Keys == current.Keys
  {
    forall k :: k in rest ==> current[k] == start[k]
  }

  ghost predicate AllStepped(
    rel: StepRelation, start: LedgerMap, steps: map<NamespacedName, Step>, current: LedgerMap)
    requires steps.Keys <= start.Keys == current.Keys
  {
    forall k :: k in steps ==> rel(k, start[k], steps[k], current[k])
  }

  lemma SteppedOne(
    rel: StepRelation, start: LedgerMap, steps: map<NamespacedName, Step>, current: LedgerMap,
    key: NamespacedName, step: Step, l: Ledger)
    requires steps.Keys <= start.Keys == current.Keys && key in start && key !in steps
    requires AllStepped(rel, start, steps, current) && rel(key, start[key], step, l)
    ensures AllStepped(rel, start, steps[key := step], current[key := l])
  {
  }

  // ----- the accounts of one cycle -----

  /** Every policy's counter grew by its group, unless the status patch was rejected. */
  ghost predicate AllAdd(before: LedgerMap, groups: Groups, patching: NamespacedName -> Patching, after: LedgerMap) {
    && before.Keys == after.Keys
    && forall k :: k in before ==> Adds(before[k], after[k], Increment(GroupIn(groups, k), patching(k)))
  }

  lemma SteppedAdd(
    fmt: Formatter, before: LedgerMap, groups: Groups, patching: NamespacedName -> Patching,
    steps: map<NamespacedName, Step>, after: LedgerMap)
    requires steps.Keys == before.Keys == after.Keys
    requires AllStepped(StepRel(fmt, groups, patching), before, steps, after)
    ensures AllAdd(before, groups, patching, after)
  {
    forall k | k in before
      ensures Adds(before[k], after[k], Increment(GroupIn(groups, k), patching(k)))
    {
      assert StepRel(fmt, groups, patching)(k, before[k], steps[k], after[k]);
      StepGrowth(fmt, before[k], GroupIn(groups, k), patching(k), steps[k], after[k]);
    }
  }

  /** Over any of the policies, the observations of their groups are the growth of their
      counters and the groups whose status patch was rejected. */
  lemma {:induction false} SumsBalance<K(!new)>(
    keys: set<K>, before: K -> int, after: K -> int, failed: K -> int, sizes: K -> int)
    requires forall k :: k in keys ==> after(k) - before(k) + failed(k) == sizes(k)
    ensures Sum(keys, after) - Sum(keys, before) + Sum(keys, failed) == Sum(keys, sizes)
    decreases keys
  {
    if keys != {} {
      var k :| k in keys;
      SumRemove(keys, before, k);
      SumRemove(keys, after, k);
      SumRemove(keys, failed, k);
      SumRemove(keys, sizes, k);
      SumsBalance(keys - {k}, before, after, failed, sizes);
    }
  }

  lemma GroupsBalance(before: LedgerMap, groups: Groups, patching: NamespacedName -> Patching, after: LedgerMap)
    requires AllAdd(before, groups, patching, after)
    ensures Total(after) - Total(before) + Sum(before.Keys, FailedSizes(groups, patching)) ==
            Sum(before.Keys, Sizes(groups))
  {
    SumsBalance(before.Keys, CountOfPolicy(before), CountOfPolicy(after), FailedSizes(groups, patching), Sizes(groups));
  }

  /** What a completed cycle did: it grouped the drained observations by the verdicts of
      the chain, and every policy took one sync step with its own group. */
  ghost predicate CycleStep(
    fmt: Formatter, before: LedgerMap, drained: seq<Observation>, policies: map<NamespacedName, seq<OwnerRef>>,
    live: nat -> Live, patching: NamespacedName -> Patching, verdicts: seq<Verdict>,
    groups: Groups, steps: map<NamespacedName, Step>, after: LedgerMap)
  {
    && Correlated(Policies(before), drained, policies, live, verdicts, groups)
    && steps.Keys == before.Keys == after.Keys
    && AllStepped(StepRel(fmt, groups, patching), before, steps, after)
  }

  /** The cycle ended: the drained observations are the increments of the counters, the
      groups whose status patch was rejected, and the unattributed ones. */
  lemma CycleDone(
    fmt: Formatter, before: LedgerMap, drained: seq<Observation>, policies: map<NamespacedName, seq<OwnerRef>>,
    live: nat -> Live, patching: NamespacedName -> Patching, verdicts: seq<Verdict>, groups: Groups,
    steps: map<NamespacedName, Step>, after: LedgerMap)
    requires ValidLedgers(before) && steps.Keys == before.Keys == after.Keys
    requires AllStepped(StepRel(fmt, groups, patching), before, steps, after)
    requires Correlated(Policies(before), drained, policies, live, verdicts, groups)
    ensures ValidLedgers(after)
    ensures Total(after) - Total(before) + Sum(after.Keys, FailedSizes(groups, patching)) +
            UnattributedTo(verdicts, |drained|) == |drained|
  {
    assert before.Keys == Policies(before).Keys;
    VerdictsInSnapshot(drained, CycleOf(Policies(before), policies), live);
    GroupsSum(drained, verdicts, before.Keys, groups);
    SteppedAdd(fmt, before, groups, patching, steps, after);
    GroupsBalance(before, groups, patching, after);
  }

  lemma VerdictsInSnapshot(observations: seq<Observation>, cycle: Cycle, live: nat -> Live)
    requires BuiltFrom(cycle)
    ensures var verdicts := Verdicts(observations, cycle, live);
            forall i :: 0 <= i < |verdicts| && verdicts[i].Attributed? ==> verdicts[i].key in cycle.snapshot.Keys
  {
    var verdicts := Verdicts(observations, cycle, live);
    forall i | 0 <= i < |verdicts| && verdicts[i].Attributed?
      ensures verdicts[i].key in cycle.snapshot.Keys
    {
      AttributedInSnapshot(observations[i], cycle, live(i));
    }
  }

  lemma GroupsSum(
    observations: seq<Observation>, verdicts: seq<Verdict>, keys: set<NamespacedName>, groups: Groups)
    requires |verdicts| == |observations|
    requires forall k :: GroupIn(groups, k) == GroupTo(observations, verdicts, k, |observations|)
    requires forall i :: 0 <= i < |verdicts| && verdicts[i].Attributed? ==> verdicts[i].key in keys
    ensures Sum(keys, Sizes(groups)) + UnattributedTo(verdicts, |observations|) == |observations|
  {
    GroupsAccount(observations, verdicts, keys, |observations|);
    SumSame(keys, Sizes(groups), GroupSize(observations, verdicts, |observations|));
  }
}
