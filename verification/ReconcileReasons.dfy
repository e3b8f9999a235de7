/** Which reason a reconcile of a policy reports, in terms of the cluster it reads. */
module ReconcileReasons {
  import opened Api
  import opened Ownership
  import opened TargetIndex
  import opened SelectorScope
  import opened DataPlane
  import opened Reconcile

  /** Another policy of the namespace has the same target and direction. */
  ghost predicate HasRival(policies: PolicyMap, key: NamespacedName)
    requires key in policies
  {
    var spec := policies[key].spec;
    exists j :: && j in policies && j != key && j.namespace == key.namespace
                && policies[j].spec.targetRef == spec.targetRef && policies[j].spec.direction == spec.direction
  }

  lemma RivalIff(policies: PolicyMap, key: NamespacedName)
    requires SchemaValid(policies) && key in policies
    ensures var spec := policies[key].spec;
            && IndexedTarget(spec).Some?
            && (|ListByIndex(policies, key.namespace, IndexedTarget(spec).value)| >= 2 <==> HasRival(policies, key))
  {
    var spec := policies[key].spec;
    IndexEqualsTuple(policies, key.namespace, spec.targetRef.kind, spec.targetRef.name, spec.direction);
    var group := ListByIndex(policies, key.namespace, IndexedTarget(spec).value);
    assert key in group;
    if HasRival(policies, key) {
      var j :| j in policies && j != key && j.namespace == key.namespace &&
               policies[j].spec.targetRef == spec.targetRef && policies[j].spec.direction == spec.direction;
      assert j in group;
      if |group| < 2 { OnlyElement(group, j, key); }
    } else {
      assert forall j :: j in group ==> j == key;
      assert group == {key};
    }
  }

  /** The selector misses an existing target, and the policy is not in monitor mode. */
  ghost predicate MissesTarget(compile: Compiler, wnp: Policy, env: Env)
    requires PolicyMatcher(compile, wnp.spec).Some?
  {
    var m, t := PolicyMatcher(compile, wnp.spec).value, wnp.spec.targetRef;
    && wnp.spec.mode != "monitor"
    && (exists w :: IsWorkload(env.seen, t.kind, w) && w.name == t.name)
    && !(exists w :: IsWorkload(env.seen, t.kind, w) && w.name == t.name && m(w.labels))
  }

  /** The error of the data-plane reconciliation, see DataPlane.ErrorIff. */
  ghost function RenderError(c: Cluster, wnp: Policy, env: Env): Option<string>
    requires BackendPopulated(wnp.spec)
  {
    if wnp.spec.backend == "kubernetes"
    then Reconciled(c.networkPolicies, wnp, DesiredNetworkPolicy(wnp.spec), env.calls).error
    else Reconciled(c.authorizationPolicies, wnp, DesiredAuthorizationPolicy(wnp.spec), env.calls).error
  }

  /** The reason, in order of precedence: nothing when the policies cannot be listed; a duplicate
      target; nothing when the scope cannot be evaluated; what is left in place when the target
      is missed; the error of the data plane; and else the scope. */
  lemma StepReasonExact(compile: Compiler, c: Cluster, key: NamespacedName, env: Env)
    requires SchemaValid(c.policies) && key in c.policies && BackendPopulated(c.policies[key].spec)
    ensures var wnp, reason := c.policies[key], StepReason(compile, c, key, env);
            var scope := Scope(compile, env.seen, wnp.spec);
            if !env.listOk then reason == None
            else if HasRival(c.policies, key) then reason == Some("DuplicateTarget")
            else if scope.None? then reason == None
            else if MissesTarget(compile, wnp, env) then reason == Some(RetainedReason(compile, c, wnp, env))
            else reason == if RenderError(c, wnp, env).Some? then RenderError(c, wnp, env) else scope
  {
    RivalIff(c.policies, key);
  }

  /** The selector of the object that stays in place when the target is missed: of the object
      of the policy's back end and name, if the policy controls it. */
  ghost function LeftInPlace(c: Cluster, wnp: Policy): Option<LabelSelector> {
    if wnp.spec.backend == "kubernetes" then
      if wnp.key in c.networkPolicies && ControlledBy(c.networkPolicies[wnp.key].ownerRefs, wnp.uid)
      then Some(c.networkPolicies[wnp.key].spec.podSelector) else None
    else
      if wnp.key in c.authorizationPolicies && ControlledBy(c.authorizationPolicies[wnp.key].ownerRefs, wnp.uid)
      then Some(LabelSelector(c.authorizationPolicies[wnp.key].spec.matchLabels, [])) else None
  }

  /** When the target is missed, the object left in place is reported as overlapping exactly
      when its own selector reaches beyond the target; if there is none, or a call fails, the
      missed target is reported. */
  lemma RetainedReasonExact(compile: Compiler, c: Cluster, wnp: Policy, env: Env)
    ensures var reason, left := RetainedReason(compile, c, wnp, env), LeftInPlace(c, wnp);
            && (!env.retainedGetOk || left.None? ==> reason == "SelectorDoesNotMatchTarget")
            && (left.Some? && env.retainedGetOk ==>
                  var m, seen := compile(left.value), env.retainedSeen;
                  && (m.None? || !seen.workloadsOk ==> reason == "SelectorDoesNotMatchTarget")
                  && (m.Some? && seen.workloadsOk && seen.podsOk && !Unreadable(seen, m.value) ==>
                        (reason == "SelectorOverlapsWorkload" <==> Overreaches(seen, m.value, wnp.spec.targetRef))))
  {
    var left := LeftInPlace(c, wnp);
    if left.Some? && compile(left.value).Some? {
      var m, seen := compile(left.value).value, env.retainedSeen;
      if seen.workloadsOk && seen.podsOk && !Unreadable(seen, m) {
        RetainedIff(m, seen, wnp.spec.targetRef);
      }
    }
  }
}
