/** Reconciliation of one WorkloadNetworkPolicy as a step over the cluster
    (internal/controller/workloadnetworkpolicy_controller.go with the duplicate-target
    check, the selector-scope check and the two data-plane back ends). */
module Reconcile {
  import opened Api
  import opened Ownership
  import opened TargetIndex
  import opened SelectorScope
  import opened Duplicates
  import opened DataPlane
  import opened Conditions

  const DUPLICATE_TARGET := "DuplicateTarget"
  const ALLOW := "ALLOW"

  /** The AuthorizationPolicy spec: action, workload selector and rules. */
  datatype AuthorizationSpec = AuthorizationSpec(action: string, matchLabels: Labels, rules: seq<IstioRule>)

  function DesiredNetworkPolicy(spec: PolicySpec): Desired<NetworkPolicySpec>
    requires spec.kubernetes.Some?
  {
    if spec.mode == MONITOR then Absent else Present(spec.kubernetes.value, Untouched)
  }

  function DesiredAuthorizationPolicy(spec: PolicySpec): Desired<AuthorizationSpec>
    requires spec.istio.Some?
  {
    var istio := spec.istio.value;
    Present(AuthorizationSpec(ALLOW, istio.selector.matchLabels, istio.rules),
            if spec.mode == MONITOR then Enabled else Disabled)
  }

  datatype Cluster = Cluster(
    policies: PolicyMap,
    networkPolicies: Objects<NetworkPolicySpec>,
    authorizationPolicies: Objects<AuthorizationSpec>)

  /** The reads and call outcomes one step meets. The retained reads are those of the
      second scope check, of the object left in place. */
  datatype Env = Env(
    getOk: bool, listOk: bool, seen: Reads, retainedGetOk: bool, retainedSeen: Reads, calls: Calls, status: Write)

  // ----- the step -----

  function RetainedMatcher(compile: Compiler, c: Cluster, wnp: Policy): Option<Option<Matcher>> {
    if wnp.spec.backend == KUBERNETES then
      var np := Current(c.networkPolicies, wnp.key);
      if np.None? || !ControlledBy(np.value.ownerRefs, wnp.uid) then None
      else Some(compile(np.value.spec.podSelector))
    else
      var ap := Current(c.authorizationPolicies, wnp.key);
      if ap.None? || !ControlledBy(ap.value.ownerRefs, wnp.uid) then None
      else Some(compile(LabelSelector(ap.value.spec.matchLabels, [])))
  }

  ghost function RetainedReason(compile: Compiler, c: Cluster, wnp: Policy, env: Env): string {
    var m := RetainedMatcher(compile, c, wnp);
    if !env.retainedGetOk || m.None? then DOES_NOT_MATCH_TARGET
    else
      var r := Retained(m.value, env.retainedSeen, wnp.spec.targetRef);
      if r.None? then DOES_NOT_MATCH_TARGET else r.value
  }

  /** The cluster after reconcilePolicy and the reason it reports, if any. */
  datatype Report = Report(cluster: Cluster, reason: Option<string>)

  ghost predicate Mismatch(compile: Compiler, wnp: Policy, env: Env) {
    Scope(compile, env.seen, wnp.spec) == Some(DOES_NOT_MATCH_TARGET) && wnp.spec.mode != MONITOR
  }

  ghost function Rendering(compile: Compiler, c: Cluster, wnp: Policy, env: Env): Report
    requires PolicyMatcher(compile, wnp.spec).Some? && Scope(compile, env.seen, wnp.spec).Some?
  {
    var scope := Scope(compile, env.seen, wnp.spec);
    if wnp.spec.backend == KUBERNETES then
      var r := Reconciled(c.networkPolicies, wnp, DesiredNetworkPolicy(wnp.spec), env.calls);
      Report(c.(networkPolicies := r.objects), if r.error.Some? then r.error else scope)
    else
      var r := Reconciled(c.authorizationPolicies, wnp, DesiredAuthorizationPolicy(wnp.spec), env.calls);
      Report(c.(authorizationPolicies := r.objects), if r.error.Some? then r.error else scope)
  }

  ghost function PolicyReconciled(compile: Compiler, c: Cluster, wnp: Policy, env: Env): Report {
    if Scope(compile, env.seen, wnp.spec).None? then Report(c, None)
    else if Mismatch(compile, wnp, env) then Report(c, Some(RetainedReason(compile, c, wnp, env)))
    else Rendering(compile, c, wnp, env)
  }

  function ReadyCondition(wnp: Policy, reason: string): Condition {
    Condition(READY, reason == SCOPE_VALID, reason, wnp.generation)
  }

  function Ready(wnp: Policy, reason: string): Policy {
    wnp.(status := wnp.status.(conditions := SetStatusCondition(wnp.status.conditions, ReadyCondition(wnp, reason))))
  }

  /** The Ready condition says the reason, for the generation at hand; every other condition
      and every other field of the policy is as before. */
  ghost predicate ReadyReported(before: Policy, after: Policy, reason: string) {
    var conditions := after.status.conditions;
    && (exists c :: && FindStatusCondition(conditions, "Ready") == Some(c) && c.reason == reason
                    && c.observedGeneration == before.generation && (c.status <==> reason == "SelectorScopeValid"))
    && Others(conditions, READY) == Others(before.status.conditions, READY)
    && after == before.(status := before.status.(conditions := conditions))
  }

  lemma ReadyReports(wnp: Policy, reason: string)
    ensures ReadyReported(wnp, Ready(wnp, reason), reason)
  {
    var c := ReadyCondition(wnp, reason);
    SetStatusConditionExact(wnp.status.conditions, c, c);
    assert FindStatusCondition(Ready(wnp, reason).status.conditions, "Ready") == Some(c);
  }

  /** updateReadyCondition */
  function WithReady(c: Cluster, key: NamespacedName, reason: string, write: Write): Cluster {
    if write.Refused? || key !in c.policies then c
    else c.(policies := c.policies[key := Ready(c.policies[key], reason)])
  }

  /** The step may render: no older policy shares the target, and the scope lets it. */
  ghost predicate MayRender(compile: Compiler, c: Cluster, key: NamespacedName, env: Env)
    requires key in c.policies
  {
    && ConflictOf(c.policies, env.listOk, c.policies[key]) in {NoConflict, DuplicateOf(true)}
    && Scope(compile, env.seen, c.policies[key].spec).Some?
    && !Mismatch(compile, c.policies[key], env)
  }

  /** The reason the step reports, if any. */
  ghost function StepReason(compile: Compiler, c: Cluster, key: NamespacedName, env: Env): Option<string>
    requires key in c.policies
  {
    match ConflictOf(c.policies, env.listOk, c.policies[key])
    case Unlisted => None
    case DuplicateOf(_) => Some(DUPLICATE_TARGET)
    case NoConflict => PolicyReconciled(compile, c, c.policies[key], env).reason
  }

  ghost function DataStep(compile: Compiler, c: Cluster, key: NamespacedName, env: Env): Cluster
    requires key in c.policies
  {
    if MayRender(compile, c, key, env) then Rendering(compile, c, c.policies[key], env).cluster else c
  }

  /** Reconcile */
  ghost function Step(compile: Compiler, c: Cluster, key: NamespacedName, env: Env): Cluster {
    if !env.getOk || key !in c.policies then c
    else
      var reason := StepReason(compile, c, key, env);
      var d := DataStep(compile, c, key, env);
      if reason.None? then d else WithReady(d, key, reason.value, env.status)
  }

  // ----- the code -----

  /** The answer of the List call on the policy's index value, in some order. */
  ghost predicate Answers(policies: PolicyMap, wnp: Policy, list: seq<Policy>) {
    IndexedTarget(wnp.spec).Some? ==>
      var group := ListByIndex(policies, wnp.key.namespace, IndexedTarget(wnp.spec).value);
      |list| == |group| && forall p :: p in list <==> p.key in group && p == policies[p.key]
  }

  /** populateIstioAuthorizationPolicySpec: a deep copy of the rules. */
  method PopulateAuthorizationPolicy(istio: IstioSpec) returns (r: AuthorizationSpec)
    ensures r == AuthorizationSpec(ALLOW, istio.selector.matchLabels, istio.rules)
  {
    var rules: seq<IstioRule> := [];
    for i := 0 to |istio.rules|
      invariant rules == istio.rules[..i]
    {
      var rule := istio.rules[i];
      var froms: seq<IstioFrom> := [];
      for j := 0 to |rule.froms|
        invariant froms == rule.froms[..j]
      {
        froms := froms + [IstioFrom(rule.froms[j].principals)];
      }
      var tos: seq<IstioTo> := [];
      for j := 0 to |rule.tos|
        invariant tos == rule.tos[..j]
      {
        tos := tos + [IstioTo(rule.tos[j].ports)];
      }
      assert IstioRule(froms, tos) == rule && istio.rules[..i + 1] == istio.rules[..i] + [rule];
      rules := rules + [IstioRule(froms, tos)];
    }
    r := AuthorizationSpec(ALLOW, istio.selector.matchLabels, rules);
  }

  class Reconciler {
    var policies: PolicyMap
    var networkPolicies: Objects<NetworkPolicySpec>
    var authorizationPolicies: Objects<AuthorizationSpec>

    function State(): Cluster
      reads this
    {
      Cluster(policies, networkPolicies, authorizationPolicies)
    }

    constructor (c: Cluster)
      ensures State() == c
    {
      policies, networkPolicies, authorizationPolicies := c.policies, c.networkPolicies, c.authorizationPolicies;
    }

    /** reconcileK8sPolicy with reconcileProtect */
    method ReconcileKubernetesPolicy(wnp: Policy, calls: Calls) returns (error: Option<string>)
      requires wnp.spec.kubernetes.Some?
      modifies this`networkPolicies
      ensures Outcome(networkPolicies, error) ==
              Reconciled(old(networkPolicies), wnp, DesiredNetworkPolicy(wnp.spec), calls)
    {
      var key := wnp.key;
      if !calls.getOk {
        return Some(RECONCILIATION_FAILED);
      }
      if key in networkPolicies && !ControlledBy(networkPolicies[key].ownerRefs, wnp.uid) {
        return Some(OWNERSHIP_CONFLICT);
      }
      if key !in networkPolicies && wnp.spec.mode == MONITOR {
        return None;
      }
      if wnp.spec.mode == MONITOR {
        if !calls.write.Refused? {
          networkPolicies := networkPolicies - {key};
        }
        return if calls.write.Done? then None else Some(RECONCILIATION_FAILED);
      }
      if !calls.rereadOk {
        return Some(RECONCILIATION_FAILED);
      }
      var current := Current(networkPolicies, key);
      var next := Render(wnp, current, Present(wnp.spec.kubernetes.value, Untouched));
      if next.None? {
        return Some(RECONCILIATION_FAILED);
      }
      if next == current {
        return None;
      }
      if !calls.write.Refused? {
        networkPolicies := networkPolicies[key := next.value];
      }
      return if calls.write.Done? then None else Some(RECONCILIATION_FAILED);
    }

    /** reconcileIstioPolicy */
    method ReconcileIstioPolicy(wnp: Policy, calls: Calls) returns (error: Option<string>)
      requires wnp.spec.istio.Some?
      modifies this`authorizationPolicies
      ensures Outcome(authorizationPolicies, error) ==
              Reconciled(old(authorizationPolicies), wnp, DesiredAuthorizationPolicy(wnp.spec), calls)
    {
      var key := wnp.key;
      if !calls.getOk {
        return Some(RECONCILIATION_FAILED);
      }
      if key in authorizationPolicies && !ControlledBy(authorizationPolicies[key].ownerRefs, wnp.uid) {
        return Some(OWNERSHIP_CONFLICT);
      }
      if !calls.rereadOk {
        return Some(RECONCILIATION_FAILED);
      }
      var spec := PopulateAuthorizationPolicy(wnp.spec.istio.value);
      var current := Current(authorizationPolicies, key);
      var next := Render(wnp, current, Present(spec, if wnp.spec.mode == MONITOR then Enabled else Disabled));
      if next.None? {
        return Some(RECONCILIATION_FAILED);
      }
      if next == current {
        return None;
      }
      if !calls.write.Refused? {
        authorizationPolicies := authorizationPolicies[key := next.value];
      }
      return if calls.write.Done? then None else Some(RECONCILIATION_FAILED);
    }

    /** reconcilePolicy */
    method ReconcilePolicy(compile: Compiler, wnp: Policy, env: Env) returns (reason: Option<string>)
      requires NamesUnique(env.seen) && NamesUnique(env.retainedSeen) && SupportedKind(wnp.spec.targetRef.kind)
      modifies this`networkPolicies, this`authorizationPolicies
      ensures Report(State(), reason) == PolicyReconciled(compile, old(State()), wnp, env)
    {
      var scope := CheckSelectorScope(compile, env.seen, wnp.spec);
      if scope.None? {
        return None;
      }
      if scope.value == DOES_NOT_MATCH_TARGET && wnp.spec.mode != MONITOR {
        var m := RetainedMatcher(compile, State(), wnp);
        if !env.retainedGetOk || m.None? {
          return Some(DOES_NOT_MATCH_TARGET);
        }
        var retained := CheckRetained(m.value, env.retainedSeen, wnp.spec.targetRef);
        return if retained.None? then Some(DOES_NOT_MATCH_TARGET) else retained;
      }
      var error: Option<string>;
      if wnp.spec.backend == KUBERNETES {
        error := ReconcileKubernetesPolicy(wnp, env.calls);
      } else {
        error := ReconcileIstioPolicy(wnp, env.calls);
      }
      reason := if error.Some? then error else scope;
    }

    /** updateReadyCondition */
    method UpdateReadyCondition(key: NamespacedName, reason: string, write: Write)
      requires key in policies
      modifies this`policies
      ensures State() == WithReady(old(State()), key, reason, write)
      ensures write.Refused? ==> policies == old(policies)
      ensures !write.Refused? ==>
                && policies.Keys == old(policies.Keys)
                && ReadyReported(old(policies)[key], policies[key], reason)
                && forall k :: k in policies && k != key ==> policies[k] == old(policies)[k]
    {
      ReadyReports(policies[key], reason);
      if !write.Refused? {
        var wnp := policies[key];
        var conditions := SetStatusCondition(wnp.status.conditions, ReadyCondition(wnp, reason));
        policies := policies[key := wnp.(status := wnp.status.(conditions := conditions))];
      }
    }

    /** Reconcile. `list` is what the List call of the duplicate check returns. */
    method Reconcile(compile: Compiler, key: NamespacedName, list: seq<Policy>, env: Env)
      requires Keyed(policies) && NamesUnique(env.seen) && NamesUnique(env.retainedSeen)
      requires key in policies ==>
                 SupportedKind(policies[key].spec.targetRef.kind) && Answers(policies, policies[key], list)
      modifies this
      ensures State() == Step(compile, old(State()), key, env)
    {
      if !env.getOk || key !in policies {
        return;
      }
      var wnp := policies[key];
      var conflict := CheckDuplicateTarget(policies, env.listOk, list, wnp);
      if conflict.Unlisted? {
        return;
      }
      if conflict.DuplicateOf? && !conflict.winner {
        UpdateReadyCondition(key, DUPLICATE_TARGET, env.status);
        return;
      }
      var reason := ReconcilePolicy(compile, wnp, env);
      if reason.None? && conflict.NoConflict? {
        return;
      }
      UpdateReadyCondition(key, if conflict.DuplicateOf? then DUPLICATE_TARGET else reason.value, env.status);
    }
  }

  // ----- one step -----

  ghost predicate SameDataPlane(a: Cluster, b: Cluster) {
    a.networkPolicies == b.networkPolicies && a.authorizationPolicies == b.authorizationPolicies
  }

  lemma DataStepPolicies(compile: Compiler, c: Cluster, key: NamespacedName, env: Env)
    requires key in c.policies
    ensures DataStep(compile, c, key, env).policies == c.policies
  {
  }

  lemma StepDataPlane(compile: Compiler, c: Cluster, key: NamespacedName, env: Env)
    ensures SameDataPlane(Step(compile, c, key, env),
                          if env.getOk && key in c.policies then DataStep(compile, c, key, env) else c)
  {
  }

  /** A step changes nothing of the policies but the Ready condition of its own: other
      policies, other fields and conditions of other types stay. */
  lemma StepPolicies(compile: Compiler, c: Cluster, key: NamespacedName, env: Env)
    requires Keyed(c.policies)
    ensures var after := Step(compile, c, key, env).policies;
            && Keyed(after) && after.Keys == c.policies.Keys
            && (forall k :: k in c.policies && k != key ==> after[k] == c.policies[k])
            && (key in c.policies && after[key] != c.policies[key] ==>
                  && StepReason(compile, c, key, env).Some?
                  && ReadyReported(c.policies[key], after[key], StepReason(compile, c, key, env).value))
  {
    if key in c.policies {
      DataStepPolicies(compile, c, key, env);
      var reason := StepReason(compile, c, key, env);
      if reason.Some? { ReadyReports(c.policies[key], reason.value); }
    }
  }

  ghost predicate OwnedOrAbsent<S>(objects: Objects<S>, key: NamespacedName, uid: string) {
    key !in objects || ControlledBy(objects[key].ownerRefs, uid)
  }

  ghost predicate OnlyAt<S>(before: Objects<S>, after: Objects<S>, key: NamespacedName) {
    forall k :: k != key ==> Current(after, k) == Current(before, k)
  }

  /** Ownership safety: a step writes or deletes at most the object with its policy's own
      name, and only if that is absent or controlled by the policy. */
  lemma StepTouchesOnlyOwn(compile: Compiler, c: Cluster, key: NamespacedName, env: Env)
    requires Keyed(c.policies)
    ensures var after := Step(compile, c, key, env);
            && OnlyAt(c.networkPolicies, after.networkPolicies, key)
            && OnlyAt(c.authorizationPolicies, after.authorizationPolicies, key)
            && (after.networkPolicies != c.networkPolicies ==>
                  key in c.policies && OwnedOrAbsent(c.networkPolicies, key, c.policies[key].uid))
            && (after.authorizationPolicies != c.authorizationPolicies ==>
                  key in c.policies && OwnedOrAbsent(c.authorizationPolicies, key, c.policies[key].uid))
  {
    StepDataPlane(compile, c, key, env);
    if key in c.policies && MayRender(compile, c, key, env) {
      var wnp := c.policies[key];
      if wnp.spec.backend == KUBERNETES {
        TouchesOnlyOwn(c.networkPolicies, wnp, DesiredNetworkPolicy(wnp.spec), env.calls);
      } else {
        TouchesOnlyOwn(c.authorizationPolicies, wnp, DesiredAuthorizationPolicy(wnp.spec), env.calls);
      }
    }
  }

  lemma NoRivalWins(policies: PolicyMap, listOk: bool, key: NamespacedName, target: string)
    requires Keyed(policies) && key in policies && IndexedTarget(policies[key].spec) == Some(target)
    ensures ConflictOf(policies, listOk, policies[key]) in {NoConflict, DuplicateOf(true)} <==>
            listOk && IsOldest(policies, ListByIndex(policies, key.namespace, target), key)
  {
    var group := ListByIndex(policies, key.namespace, target);
    assert key in group;
    if |group| < 2 {
      forall j | j in group
        ensures j == key
      {
        OnlyElement(group, j, key);
      }
    }
  }

  /** Exactly when a step renders: the scope could be evaluated, no older policy has the
      target, and the selector does not miss an existing target, or the mode is monitor. */
  lemma MayRenderIff(compile: Compiler, c: Cluster, key: NamespacedName, env: Env)
    requires Keyed(c.policies) && key in c.policies
    ensures var spec := c.policies[key].spec;
            var target := IndexedTarget(spec);
            MayRender(compile, c, key, env) <==>
            && Scope(compile, env.seen, spec).Some?
            && (target.Some? ==>
                  env.listOk && IsOldest(c.policies, ListByIndex(c.policies, key.namespace, target.value), key))
            && (spec.mode == MONITOR || !TargetExists(env.seen, spec.targetRef) ||
                TargetMatches(env.seen, PolicyMatcher(compile, spec).value, spec.targetRef))
  {
    var target := IndexedTarget(c.policies[key].spec);
    if target.Some? {
      NoRivalWins(c.policies, env.listOk, key, target.value);
    }
  }

  /** Whoever writes the data plane is the oldest policy of its target. */
  lemma WriterIsOldest(compile: Compiler, c: Cluster, namespace: string, target: string, key: NamespacedName, env: Env)
    requires Keyed(c.policies) && key in ListByIndex(c.policies, namespace, target)
    ensures SameDataPlane(Step(compile, c, key, env), c) ||
            IsOldest(c.policies, ListByIndex(c.policies, namespace, target), key)
  {
    StepDataPlane(compile, c, key, env);
    if MayRender(compile, c, key, env) {
      NoRivalWins(c.policies, env.listOk, key, target);
    }
  }

  /** One writer per target: whatever the calls return, of all policies that share a
      (targetRef, direction) only one can write the data plane. */
  lemma OneWriter(compile: Compiler, c: Cluster, namespace: string, target: string,
                  j: NamespacedName, jEnv: Env, k: NamespacedName, kEnv: Env)
    requires Keyed(c.policies)
    requires j in ListByIndex(c.policies, namespace, target) && k in ListByIndex(c.policies, namespace, target)
    requires j != k
    ensures SameDataPlane(Step(compile, c, j, jEnv), c) || SameDataPlane(Step(compile, c, k, kEnv), c)
  {
    WriterIsOldest(compile, c, namespace, target, j, jEnv);
    WriterIsOldest(compile, c, namespace, target, k, kEnv);
    var group := ListByIndex(c.policies, namespace, target);
    if IsOldest(c.policies, group, j) && IsOldest(c.policies, group, k) {
      OldestUnique(c.policies, group, j, k);
    }
  }

  /** A selector that misses an existing target stops every write, except in monitor mode. */
  lemma MismatchWritesNothing(compile: Compiler, c: Cluster, key: NamespacedName, env: Env)
    requires Keyed(c.policies) && key in c.policies && c.policies[key].spec.mode != MONITOR
    requires var spec := c.policies[key].spec;
             && PolicyMatcher(compile, spec).Some?
             && TargetExists(env.seen, spec.targetRef)
             && !TargetMatches(env.seen, PolicyMatcher(compile, spec).value, spec.targetRef)
    ensures SameDataPlane(Step(compile, c, key, env), c)
  {
    StepDataPlane(compile, c, key, env);
    MayRenderIff(compile, c, key, env);
  }

  // ----- what a successful step leaves -----

  ghost predicate ObjectSettled(c: Cluster, key: NamespacedName) {
    && key in c.policies
    && var wnp := c.policies[key];
       if wnp.spec.backend == KUBERNETES
       then wnp.spec.kubernetes.Some? && Settled(c.networkPolicies, wnp, DesiredNetworkPolicy(wnp.spec))
       else wnp.spec.istio.Some? && Settled(c.authorizationPolicies, wnp, DesiredAuthorizationPolicy(wnp.spec))
  }

  /** A step that may render either settles the object or reports an error, and an error
      with no lost answer changes no object. */
  lemma RenderingSettles(compile: Compiler, c: Cluster, key: NamespacedName, env: Env)
    requires Keyed(c.policies) && key in c.policies && MayRender(compile, c, key, env)
    ensures var r := Rendering(compile, c, c.policies[key], env);
            && r.cluster.policies == c.policies
            && (ObjectSettled(r.cluster, key) ||
                (r.reason in {Some(OWNERSHIP_CONFLICT), Some(RECONCILIATION_FAILED)} && r.cluster == c))
  {
    var wnp := c.policies[key];
    if wnp.spec.backend == KUBERNETES {
      SuccessSettles(c.networkPolicies, wnp, DesiredNetworkPolicy(wnp.spec), env.calls);
    } else {
      SuccessSettles(c.authorizationPolicies, wnp, DesiredAuthorizationPolicy(wnp.spec), env.calls);
    }
  }
}
