/** The admission webhook (internal/controller/workloadnetworkpolicy_webhook.go) and what
    it guarantees over every serial run of admitted requests. */
module Admission {
  import opened Api
  import opened TargetIndex

  /** An entry of the list that blocks the request. */
  predicate Blocks(existing: Policy, wnp: Policy) {
    !(existing.uid == wnp.uid || existing.key.name == wnp.key.name || existing.terminating)
  }

  /** No live policy of the namespace, other than wnp itself, has its (targetRef, direction). */
  ghost predicate TargetFree(cache: PolicyMap, wnp: Policy) {
    var key := IndexedTarget(wnp.spec);
    key.Some? ==> forall k :: k in ListByIndex(cache, wnp.key.namespace, key.value) ==> !Blocks(cache[k], wnp)
  }

  /** validateUniqueTarget; `listOk` is the outcome of the List call. */
  method ValidateUniqueTarget(cache: PolicyMap, listOk: bool, wnp: Policy)
    returns (allowed: bool, conflicts: set<NamespacedName>)
    ensures allowed <==> IndexedTarget(wnp.spec).None? || (listOk && TargetFree(cache, wnp))
    ensures conflicts == if IndexedTarget(wnp.spec).None? || !listOk then {}
                         else set k | k in ListByIndex(cache, wnp.key.namespace, IndexedTarget(wnp.spec).value) &&
                                      Blocks(cache[k], wnp)
  {
    conflicts := {};
    var key := IndexedTarget(wnp.spec);
    if key.None? {
      return true, conflicts;
    }
    if !listOk {
      return false, conflicts;
    }
    var items := ListByIndex(cache, wnp.key.namespace, key.value);
    var rest := items;
    while rest != {}
      invariant rest <= items
      invariant conflicts == set k | k in items - rest && Blocks(cache[k], wnp)
      decreases rest
    {
      var k :| k in rest;
      if Blocks(cache[k], wnp) {
        conflicts := conflicts + {k};
      }
      rest := rest - {k};
    }
    assert items - {} == items;
    assert TargetFree(cache, wnp) <==> conflicts == {} by {
      forall k | k in items && Blocks(cache[k], wnp)
        ensures k in conflicts
      {
      }
    }
    allowed := conflicts == {};
  }

  /** ValidateUpdate */
  method ValidateUpdate(cache: PolicyMap, listOk: bool, before: Policy, after: Policy) returns (allowed: bool)
    ensures allowed <==> UpdateAllowed(cache, listOk, before, after)
  {
    if after.terminating || IndexedTarget(before.spec) == IndexedTarget(after.spec) {
      return true;
    }
    var conflicts;
    allowed, conflicts := ValidateUniqueTarget(cache, listOk, after);
  }

  ghost predicate UpdateAllowed(cache: PolicyMap, listOk: bool, before: Policy, after: Policy) {
    || after.terminating
    || IndexedTarget(before.spec) == IndexedTarget(after.spec)
    || IndexedTarget(after.spec).None?
    || (listOk && TargetFree(cache, after))
  }

  /** On schema-valid policies the webhook rejects exactly the taken targets. */
  lemma RejectsExactlyTakenTargets(cache: PolicyMap, wnp: Policy)
    requires SchemaValid(cache) && TargetPopulated(wnp.spec)
    ensures TargetFree(cache, wnp) <==>
            !exists k :: && k in cache && k.namespace == wnp.key.namespace && k.name != wnp.key.name
                         && cache[k].uid != wnp.uid && !cache[k].terminating
                         && cache[k].spec.targetRef == wnp.spec.targetRef
                         && cache[k].spec.direction == wnp.spec.direction
  {
    var ref, direction := wnp.spec.targetRef, wnp.spec.direction;
    IndexEqualsTuple(cache, wnp.key.namespace, ref.kind, ref.name, direction);
    var listed := ListByIndex(cache, wnp.key.namespace, TargetIndexKey(ref.kind, ref.name, direction));
    assert forall k :: k in listed <==>
                       k in cache && k.namespace == wnp.key.namespace &&
                       Targets(cache[k], ref.kind, ref.name, direction);
  }

  /** An update is admitted exactly when the object is being deleted, keeps its target and
      direction, or moves to a free target and the list succeeds. */
  lemma UpdateAllowedIff(cache: PolicyMap, listOk: bool, before: Policy, after: Policy)
    requires TargetPopulated(before.spec) && TargetPopulated(after.spec)
    ensures UpdateAllowed(cache, listOk, before, after) <==>
            || after.terminating
            || (before.spec.targetRef == after.spec.targetRef && before.spec.direction == after.spec.direction)
            || (listOk && TargetFree(cache, after))
  {
    var b, a := before.spec, after.spec;
    if IndexedTarget(b) == IndexedTarget(a) {
      TargetIndexKeyInjective(b.targetRef.kind, b.targetRef.name, b.direction,
                              a.targetRef.kind, a.targetRef.name, a.direction);
    }
  }

  // ----- serial runs -----

  /** Admitted requests; the API server fixes name, UID and deletion state on update,
      gives a fresh UID on create, and removes objects once their finalizers are gone. */
  datatype Step =
    | Create(p: Policy)
    | Update(p: Policy)
    | Terminate(key: NamespacedName)
    | Remove(key: NamespacedName)

  ghost predicate Admitted(policies: PolicyMap, s: Step) {
    match s
    case Create(p) =>
      && p.key !in policies && !p.terminating && (forall k :: k in policies ==> policies[k].uid != p.uid)
      && (IndexedTarget(p.spec).None? || TargetFree(policies, p))
    case Update(p) =>
      && p.key in policies && p.uid == policies[p.key].uid && p.terminating == policies[p.key].terminating
      && UpdateAllowed(policies, true, policies[p.key], p)
    case Terminate(key) => key in policies
    case Remove(key) => key in policies
  }

  ghost function Next(policies: PolicyMap, s: Step): PolicyMap
    requires Admitted(policies, s)
  {
    match s
    case Create(p) => policies[p.key := p]
    case Update(p) => policies[p.key := p]
    case Terminate(key) => policies[key := policies[key].(terminating := true)]
    case Remove(key) => policies - {key}
  }

  /** No two live policies of a namespace share an index value, so neither do they share
      a (targetRef, direction). */
  ghost predicate UniqueTargets(policies: PolicyMap) {
    forall j, k :: j in policies && k in policies && j != k && j.namespace == k.namespace &&
                   !policies[j].terminating && !policies[k].terminating && IndexedTarget(policies[j].spec).Some? ==>
                     IndexedTarget(policies[j].spec) != IndexedTarget(policies[k].spec)
  }

  ghost predicate Identified(policies: PolicyMap) {
    && (forall k :: k in policies ==> policies[k].key == k)
    && (forall j, k :: j in policies && k in policies && j != k ==> policies[j].uid != policies[k].uid)
  }

  ghost predicate ValidRun(policies: PolicyMap, run: seq<Step>)
    decreases |run|
  {
    run == [] || (Admitted(policies, run[0]) && ValidRun(Next(policies, run[0]), run[1..]))
  }

  ghost function After(policies: PolicyMap, run: seq<Step>): PolicyMap
    requires ValidRun(policies, run)
    decreases |run|
  {
    if run == [] then policies else After(Next(policies, run[0]), run[1..])
  }

  /** A free target stays free of the policies already there. */
  lemma FreeMeansUnique(policies: PolicyMap, p: Policy)
    requires Identified(policies) && TargetFree(policies, p) && IndexedTarget(p.spec).Some?
    requires forall k :: k in policies && k != p.key ==> policies[k].uid != p.uid
    ensures forall k :: k in policies && k != p.key && k.namespace == p.key.namespace && !policies[k].terminating ==>
                          IndexedTarget(policies[k].spec) != IndexedTarget(p.spec)
  {
    forall k | k in policies && k != p.key && k.namespace == p.key.namespace && !policies[k].terminating
      ensures IndexedTarget(policies[k].spec) != IndexedTarget(p.spec)
    {
      assert k.name != p.key.name && Blocks(policies[k], p);
      assert k !in ListByIndex(policies, p.key.namespace, IndexedTarget(p.spec).value);
    }
  }

  lemma NextKeepsUnique(policies: PolicyMap, s: Step)
    requires Identified(policies) && UniqueTargets(policies) && Admitted(policies, s)
    ensures Identified(Next(policies, s)) && UniqueTargets(Next(policies, s))
  {
    match s
    case Create(p) =>
      if IndexedTarget(p.spec).Some? { FreeMeansUnique(policies, p); }
    case Update(p) =>
      if IndexedTarget(p.spec).Some? && TargetFree(policies, p) { FreeMeansUnique(policies, p); }
    case Terminate(key) =>
    case Remove(key) =>
  }

  lemma {:induction false} RunKeepsUnique(policies: PolicyMap, run: seq<Step>)
    requires Identified(policies) && UniqueTargets(policies) && ValidRun(policies, run)
    ensures Identified(After(policies, run)) && UniqueTargets(After(policies, run))
    decreases |run|
  {
    if run != [] {
      NextKeepsUnique(policies, run[0]);
      RunKeepsUnique(Next(policies, run[0]), run[1..]);
    }
  }

  /** Over every serial run of admitted requests from no policies, no two live policies of
      a namespace share (targetRef, direction), and hence any duplicate group the
      reconciler lists holds at most one live policy. */
  lemma AdmissionInvariant(run: seq<Step>, namespace: string, target: string)
    requires ValidRun(map[], run)
    ensures var policies := After(map[], run);
            && UniqueTargets(policies)
            && forall j, k :: j in ListByIndex(policies, namespace, target) && !policies[j].terminating &&
                              k in ListByIndex(policies, namespace, target) && !policies[k].terminating ==>
                                j == k
  {
    RunKeepsUnique(map[], run);
  }

  /** The invariant in terms of the fields users see. */
  lemma UniqueTargetsByTuple(policies: PolicyMap, j: NamespacedName, k: NamespacedName)
    requires UniqueTargets(policies) && j in policies && k in policies && j != k && j.namespace == k.namespace
    requires TargetPopulated(policies[j].spec) && !policies[j].terminating && !policies[k].terminating
    ensures policies[j].spec.targetRef != policies[k].spec.targetRef ||
            policies[j].spec.direction != policies[k].spec.direction
  {
    assert IndexedTarget(policies[j].spec) != IndexedTarget(policies[k].spec);
  }

  /** The list must be current: two creates of one target that both list the state before
      either of them are both admitted, and the invariant is lost. */
  lemma StaleListsAdmitDuplicates(policies: PolicyMap, p: Policy, q: Policy)
    requires Admitted(policies, Create(p)) && Admitted(policies, Create(q))
    requires p.key != q.key && p.key.namespace == q.key.namespace
    requires IndexedTarget(p.spec).Some? && IndexedTarget(p.spec) == IndexedTarget(q.spec)
    ensures !UniqueTargets(policies[p.key := p][q.key := q])
  {
    var after := policies[p.key := p][q.key := q];
    assert after[p.key] == p && after[q.key] == q;
  }
}
