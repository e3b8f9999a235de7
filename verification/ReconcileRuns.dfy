/** Reconciliation over whole runs, with other writers of the cluster in between. */
module ReconcileRuns {
  import opened Api
  import opened Ownership
  import opened TargetIndex
  import opened SelectorScope
  import opened Duplicates
  import opened DataPlane
  import opened Reconcile

  /** A reconcile of some policy, or any change of the cluster by anyone else: users, the
      API server, the status sync. */
  datatype Event = Reconciles(key: NamespacedName, env: Env) | Others(after: Cluster)

  ghost predicate ValidEvent(e: Event) { e.Others? ==> Keyed(e.after.policies) }

  ghost function Next(compile: Compiler, c: Cluster, e: Event): Cluster {
    match e
    case Reconciles(key, env) => Step(compile, c, key, env)
    case Others(after) => after
  }

  ghost function After(compile: Compiler, c: Cluster, run: seq<Event>): Cluster
    decreases |run|
  {
    if run == [] then c else After(compile, Next(compile, c, run[0]), run[1..])
  }

  lemma NextKeyed(compile: Compiler, c: Cluster, e: Event)
    requires Keyed(c.policies) && ValidEvent(e)
    ensures Keyed(Next(compile, c, e).policies)
  {
    if e.Reconciles? {
      StepPolicies(compile, c, e.key, e.env);
    }
  }

  /** The two kinds of rendered object. */
  datatype Kind = NetworkPolicyKind | AuthorizationPolicyKind

  ghost predicate SameObject(c: Cluster, d: Cluster, kind: Kind, key: NamespacedName) {
    match kind
    case NetworkPolicyKind => Current(d.networkPolicies, key) == Current(c.networkPolicies, key)
    case AuthorizationPolicyKind => Current(d.authorizationPolicies, key) == Current(c.authorizationPolicies, key)
  }

  // ----- objects the controller does not own -----

  /** No policy of that name exists, or the object at its name has another controller or none. */
  ghost predicate NotOurs(c: Cluster, kind: Kind, key: NamespacedName) {
    key in c.policies ==>
      match kind
      case NetworkPolicyKind => !OwnedOrAbsent(c.networkPolicies, key, c.policies[key].uid)
      case AuthorizationPolicyKind => !OwnedOrAbsent(c.authorizationPolicies, key, c.policies[key].uid)
  }

  /** Other writers leave the object alone, and no policy they write owns it. */
  ghost predicate KeptForeign(compile: Compiler, c: Cluster, run: seq<Event>, kind: Kind, key: NamespacedName)
    decreases |run|
  {
    run != [] ==>
      && ValidEvent(run[0])
      && (run[0].Others? ==> SameObject(c, run[0].after, kind, key) && NotOurs(run[0].after, kind, key))
      && KeptForeign(compile, Next(compile, c, run[0]), run[1..], kind, key)
  }

  lemma StepKeepsForeign(compile: Compiler, c: Cluster, k: NamespacedName, env: Env, kind: Kind, key: NamespacedName)
    requires Keyed(c.policies) && NotOurs(c, kind, key)
    ensures SameObject(c, Step(compile, c, k, env), kind, key) && NotOurs(Step(compile, c, k, env), kind, key)
  {
    StepTouchesOnlyOwn(compile, c, k, env);
    StepPolicies(compile, c, k, env);
  }

  /** Over every run, whatever fails and whatever else happens, an object that is not the
      controller's is never created over, updated or deleted by it. */
  lemma {:induction false} ForeignUntouched(
    compile: Compiler, c: Cluster, run: seq<Event>, kind: Kind, key: NamespacedName)
    requires Keyed(c.policies) && NotOurs(c, kind, key) && KeptForeign(compile, c, run, kind, key)
    ensures SameObject(c, After(compile, c, run), kind, key)
    decreases |run|
  {
    if run != [] {
      if run[0].Reconciles? {
        StepKeepsForeign(compile, c, run[0].key, run[0].env, kind, key);
      }
      NextKeyed(compile, c, run[0]);
      ForeignUntouched(compile, Next(compile, c, run[0]), run[1..], kind, key);
    }
  }

  // ----- objects the controller has settled -----

  function KindOf(spec: PolicySpec): Kind {
    if spec.backend == KUBERNETES then NetworkPolicyKind else AuthorizationPolicyKind
  }

  /** The object of the policy's back end and name is the same in both states. */
  ghost predicate SameRendered(c: Cluster, d: Cluster, key: NamespacedName) {
    key in c.policies && SameObject(c, d, KindOf(c.policies[key].spec), key)
  }

  /** Others leave the policy's spec and identity, and the object rendered for it. */
  ghost predicate Undisturbed(c: Cluster, e: Event, key: NamespacedName) {
    e.Others? ==>
      && key in c.policies && key in e.after.policies
      && e.after.policies[key].spec == c.policies[key].spec && e.after.policies[key].uid == c.policies[key].uid
      && SameRendered(c, e.after, key)
  }

  ghost predicate UndisturbedRun(compile: Compiler, c: Cluster, run: seq<Event>, key: NamespacedName)
    decreases |run|
  {
    run != [] ==>
      && ValidEvent(run[0]) && Undisturbed(c, run[0], key)
      && UndisturbedRun(compile, Next(compile, c, run[0]), run[1..], key)
  }

  lemma DataStepKeepsSettled(compile: Compiler, c: Cluster, key: NamespacedName, env: Env)
    requires Keyed(c.policies) && ObjectSettled(c, key)
    ensures DataStep(compile, c, key, env) == c
  {
    if MayRender(compile, c, key, env) {
      var wnp := c.policies[key];
      if wnp.spec.backend == KUBERNETES {
        SettledStays(c.networkPolicies, wnp, DesiredNetworkPolicy(wnp.spec), env.calls);
      } else {
        SettledStays(c.authorizationPolicies, wnp, DesiredAuthorizationPolicy(wnp.spec), env.calls);
      }
    }
  }

  lemma StepKeepsSettled(compile: Compiler, c: Cluster, k: NamespacedName, env: Env, key: NamespacedName)
    requires Keyed(c.policies) && ObjectSettled(c, key)
    ensures SameRendered(c, Step(compile, c, k, env), key)
  {
    if k == key {
      StepDataPlane(compile, c, key, env);
      DataStepKeepsSettled(compile, c, key, env);
    } else {
      StepTouchesOnlyOwn(compile, c, k, env);
    }
  }

  /** Being settled depends on the policy's spec and identity and on the object rendered
      for it. */
  lemma SettledFrame(c: Cluster, d: Cluster, key: NamespacedName)
    requires Keyed(c.policies) && Keyed(d.policies) && key in c.policies && key in d.policies
    requires d.policies[key].spec == c.policies[key].spec && d.policies[key].uid == c.policies[key].uid
    requires SameRendered(c, d, key)
    ensures ObjectSettled(c, key) ==> ObjectSettled(d, key)
  {
  }

  lemma NextKeepsSettled(compile: Compiler, c: Cluster, e: Event, kind: Kind, key: NamespacedName)
    requires Keyed(c.policies) && ObjectSettled(c, key) && kind == KindOf(c.policies[key].spec)
    requires ValidEvent(e) && Undisturbed(c, e, key)
    ensures var d := Next(compile, c, e);
            SameObject(c, d, kind, key) && ObjectSettled(d, key) && kind == KindOf(d.policies[key].spec)
  {
    if e.Reconciles? {
      StepKeepsSettled(compile, c, e.key, e.env, key);
      StepPolicies(compile, c, e.key, e.env);
    }
    SettledFrame(c, Next(compile, c, e), key);
  }

  /** Once settled, the object stays exactly as it is over every run of reconciles, until
      the policy's own spec or identity changes. */
  lemma {:induction false} SettledForever(
    compile: Compiler, c: Cluster, run: seq<Event>, kind: Kind, key: NamespacedName)
    requires Keyed(c.policies) && key in c.policies && kind == KindOf(c.policies[key].spec)
    ensures ObjectSettled(c, key) && UndisturbedRun(compile, c, run, key) ==>
              SameObject(c, After(compile, c, run), kind, key) && ObjectSettled(After(compile, c, run), key)
    decreases |run|
  {
    if run != [] && ObjectSettled(c, key) && UndisturbedRun(compile, c, run, key) {
      NextKeepsSettled(compile, c, run[0], kind, key);
      NextKeyed(compile, c, run[0]);
      SettledForever(compile, Next(compile, c, run[0]), run[1..], kind, key);
    }
  }

  /** A step of a policy that may render, and whose calls succeed, settles its object. */
  lemma WinnerSettles(compile: Compiler, c: Cluster, key: NamespacedName, env: Env)
    requires Keyed(c.policies) && key in c.policies && env.getOk && MayRender(compile, c, key, env)
    requires Rendering(compile, c, c.policies[key], env).reason !in
             {Some(OWNERSHIP_CONFLICT), Some(RECONCILIATION_FAILED)}
    ensures ObjectSettled(Step(compile, c, key, env), key)
  {
    RenderingSettles(compile, c, key, env);
    StepDataPlane(compile, c, key, env);
    DataStepPolicies(compile, c, key, env);
    StepPolicies(compile, c, key, env);
    SettledFrame(DataStep(compile, c, key, env), Step(compile, c, key, env), key);
  }

  /** What a settled object is, field by field. Kubernetes: in protect mode a NetworkPolicy
      of the policy's name, controlled by it and with its spec; in monitor mode none. Istio:
      an ALLOW policy with the selector labels and rules, in dry run exactly in monitor mode. */
  ghost predicate RenderedAs(c: Cluster, wnp: Policy) {
    var key, np, ap := wnp.key, c.networkPolicies, c.authorizationPolicies;
    var monitor := wnp.spec.mode == MONITOR;
    if wnp.spec.backend == KUBERNETES then
      && wnp.spec.kubernetes.Some? && (monitor <==> key !in np)
      && (!monitor ==> np[key].spec == wnp.spec.kubernetes.value && ControlledBy(np[key].ownerRefs, wnp.uid))
    else
      && wnp.spec.istio.Some? && key in ap && ControlledBy(ap[key].ownerRefs, wnp.uid)
      && ap[key].spec.action == ALLOW && ap[key].spec.rules == wnp.spec.istio.value.rules
      && ap[key].spec.matchLabels == wnp.spec.istio.value.selector.matchLabels
      && (monitor <==> DRY_RUN_ANNOTATION in ap[key].annotations && ap[key].annotations[DRY_RUN_ANNOTATION] == "true")
  }

  lemma SettledIsRendered(c: Cluster, key: NamespacedName)
    requires Keyed(c.policies) && ObjectSettled(c, key)
    ensures RenderedAs(c, c.policies[key])
  {
  }

  lemma ValidReasonRenders(compile: Compiler, c: Cluster, key: NamespacedName, env: Env)
    requires Keyed(c.policies) && key in c.policies && StepReason(compile, c, key, env) == Some(SCOPE_VALID)
    ensures MayRender(compile, c, key, env) && ConflictOf(c.policies, env.listOk, c.policies[key]) == NoConflict
    ensures Rendering(compile, c, c.policies[key], env).reason == Some(SCOPE_VALID)
    ensures Scope(compile, env.seen, c.policies[key].spec) == Some(SCOPE_VALID)
  {
  }

  lemma ReadyRendered(compile: Compiler, c: Cluster, key: NamespacedName, env: Env)
    requires Keyed(c.policies) && key in c.policies && env.getOk
    requires StepReason(compile, c, key, env) == Some(SCOPE_VALID)
    ensures RenderedAs(Step(compile, c, key, env), c.policies[key])
  {
    ValidReasonRenders(compile, c, key, env);
    WinnerSettles(compile, c, key, env);
    StepPolicies(compile, c, key, env);
    SettledIsRendered(Step(compile, c, key, env), key);
  }

  /** What Ready with reason SelectorScopeValid vouches for: no other policy has the target,
      the selector covers the target workload and nothing else, and the object of the
      policy's name matches its spec and mode. */
  lemma ReadyVouches(compile: Compiler, c: Cluster, key: NamespacedName, env: Env)
    requires Keyed(c.policies) && key in c.policies && env.getOk && NamesUnique(env.seen)
    requires StepReason(compile, c, key, env) == Some(SCOPE_VALID)
    ensures var spec, after := c.policies[key].spec, Step(compile, c, key, env);
            var target := IndexedTarget(spec);
            && (target.Some? ==> ListByIndex(c.policies, key.namespace, target.value) == {key})
            && PolicyMatcher(compile, spec).Some?
            && (exists w :: CoversOnly(env.seen, PolicyMatcher(compile, spec).value, spec.targetRef, w))
            && RenderedAs(after, c.policies[key])
            && (!env.status.Refused? ==> ReadyReported(c.policies[key], after.policies[key], SCOPE_VALID))
  {
    ValidReasonRenders(compile, c, key, env);
    ReadyRendered(compile, c, key, env);
    ReadyReports(c.policies[key], SCOPE_VALID);
    DataStepPolicies(compile, c, key, env);
    var spec := c.policies[key].spec;
    ValidIffCoversOnly(env.seen, PolicyMatcher(compile, spec).value, spec.targetRef);
    var target := IndexedTarget(spec);
    if target.Some? {
      var group := ListByIndex(c.policies, key.namespace, target.value);
      assert key in group;
      forall j | j in group ensures j == key { OnlyElement(group, j, key); }
    }
  }

  // ----- policies that lose their target -----

  /** An older policy has the target. */
  ghost predicate Loses(policies: PolicyMap, key: NamespacedName) {
    && key in policies && IndexedTarget(policies[key].spec).Some?
    && !IsOldest(policies, ListByIndex(policies, key.namespace, IndexedTarget(policies[key].spec).value), key)
  }

  /** The objects of both kinds with that name are the same in both states. */
  ghost predicate SameObjects(c: Cluster, d: Cluster, key: NamespacedName) {
    SameObject(c, d, NetworkPolicyKind, key) && SameObject(c, d, AuthorizationPolicyKind, key)
  }

  /** Whenever the policy is reconciled an older one has its target, and the other writers
      leave the objects of its name alone. */
  ghost predicate LosesThroughout(compile: Compiler, c: Cluster, run: seq<Event>, key: NamespacedName)
    decreases |run|
  {
    run != [] ==>
      && ValidEvent(run[0])
      && (run[0].Reconciles? && run[0].key == key ==> Loses(c.policies, key))
      && (run[0].Others? ==> SameObjects(c, run[0].after, key))
      && LosesThroughout(compile, Next(compile, c, run[0]), run[1..], key)
  }

  lemma LoserStep(compile: Compiler, c: Cluster, k: NamespacedName, env: Env, key: NamespacedName)
    requires Keyed(c.policies) && (k == key ==> Loses(c.policies, key))
    ensures SameObjects(c, Step(compile, c, k, env), key)
  {
    if k == key {
      WriterIsOldest(compile, c, key.namespace, IndexedTarget(c.policies[key].spec).value, key, env);
    } else {
      StepTouchesOnlyOwn(compile, c, k, env);
    }
  }

  /** A policy that lost its target is frozen, not cleaned up: over every run it gets no
      object, and an object it rendered before stays as it was. */
  lemma {:induction false} LoserFrozen(compile: Compiler, c: Cluster, run: seq<Event>, key: NamespacedName)
    requires Keyed(c.policies) && LosesThroughout(compile, c, run, key)
    ensures SameObjects(c, After(compile, c, run), key)
    decreases |run|
  {
    if run != [] {
      if run[0].Reconciles? {
        LoserStep(compile, c, run[0].key, run[0].env, key);
      }
      NextKeyed(compile, c, run[0]);
      LoserFrozen(compile, Next(compile, c, run[0]), run[1..], key);
    }
  }

  /** The step renders and reports no error. */
  ghost predicate Renders(compile: Compiler, c: Cluster, key: NamespacedName, env: Env) {
    && key in c.policies && env.getOk && MayRender(compile, c, key, env)
    && Rendering(compile, c, c.policies[key], env).reason !in
       {Some(OWNERSHIP_CONFLICT), Some(RECONCILIATION_FAILED)}
  }

  /** A policy renders, an older one moves to its target and renders too, and the first is
      reconciled again. */
  function TakeOver(
    j: NamespacedName, first: Env, moved: Cluster, k: NamespacedName, second: Env, again: Env): seq<Event>
  {
    [Reconciles(j, first), Others(moved), Reconciles(k, second), Reconciles(j, again)]
  }

  lemma AfterTakeOver(
    compile: Compiler, c: Cluster, j: NamespacedName, first: Env, moved: Cluster, k: NamespacedName, second: Env,
    again: Env)
    ensures After(compile, c, TakeOver(j, first, moved, k, second, again)) ==
            Step(compile, Step(compile, moved, k, second), j, again)
  {
    var run := TakeOver(j, first, moved, k, second, again);
    assert run[1..] == [Others(moved), Reconciles(k, second), Reconciles(j, again)];
    assert run[1..][1..] == [Reconciles(k, second), Reconciles(j, again)];
    assert run[1..][1..][1..] == [Reconciles(j, again)];
    var c1, c2 := Step(compile, c, j, first), Step(compile, moved, k, second);
    assert After(compile, c, run) == After(compile, c1, run[1..]);
    assert After(compile, c1, run[1..]) == After(compile, moved, run[1..][1..]);
    assert After(compile, moved, run[1..][1..]) == After(compile, c2, run[1..][1..][1..]);
    var last := [Reconciles(j, again)];
    assert last[1..] == [];
    assert After(compile, c2, last) == After(compile, Next(compile, c2, last[0]), last[1..]);
  }

  /** One writer per target is not one object per target: both objects are in place at the
      end of every such run. */
  lemma TakeOverLeavesBoth(
    compile: Compiler, c: Cluster, j: NamespacedName, first: Env, moved: Cluster, k: NamespacedName, second: Env,
    again: Env)
    requires Keyed(c.policies) && Keyed(moved.policies) && j != k
    requires Renders(compile, c, j, first) && Renders(compile, moved, k, second)
    requires j in moved.policies && moved.policies[j].spec == c.policies[j].spec &&
             moved.policies[j].uid == c.policies[j].uid
    requires SameDataPlane(moved, Step(compile, c, j, first))
    ensures var d := After(compile, c, TakeOver(j, first, moved, k, second, again));
            && Keyed(d.policies) && ObjectSettled(d, j) && ObjectSettled(d, k)
            && d.policies[j].spec == moved.policies[j].spec && d.policies[k].spec == moved.policies[k].spec
  {
    WinnerSettles(compile, c, j, first);
    var c1 := Step(compile, c, j, first);
    StepPolicies(compile, c, j, first);
    SettledFrame(c1, moved, j);
    var c2 := Step(compile, moved, k, second);
    WinnerSettles(compile, moved, k, second);
    NextKeepsSettled(compile, moved, Reconciles(k, second), KindOf(moved.policies[j].spec), j);
    NextKeyed(compile, moved, Reconciles(k, second));
    NextKeepsSettled(compile, c2, Reconciles(j, again), KindOf(c2.policies[j].spec), j);
    NextKeepsSettled(compile, c2, Reconciles(j, again), KindOf(c2.policies[k].spec), k);
    AfterTakeOver(compile, c, j, first, moved, k, second, again);
    NextKeyed(compile, c2, Reconciles(j, again));
    StepKeepsSpec(compile, moved, k, second, j);
    StepKeepsSpec(compile, moved, k, second, k);
    StepKeepsSpec(compile, c2, j, again, j);
    StepKeepsSpec(compile, c2, j, again, k);
  }

  // ----- such a run, written out -----

  const SHOP := "shop"

  /** A protect-mode Kubernetes policy for the ingress of a Deployment. */
  function ExamplePolicy(name: string, created: int, deployment: string): Policy {
    var rules := NetworkPolicySpec(LabelSelector(map["app" := deployment], []), [INGRESS], [], []);
    Policy(NamespacedName(SHOP, name), name, 1, created, false, map[], map[],
           PolicySpec(KUBERNETES, Some(rules), None, TargetRef(DEPLOYMENT, deployment), INGRESS, PROTECT),
           Status([], 0, 0, 0, [], []))
  }

  /** Every call succeeds, in a namespace without workloads and Pods. */
  const CALM := Env(true, true, NO_READS, true, NO_READS, Calls(true, true, Done), Done)
  const NO_READS := Reads([], [], [], true, [], true, map[], {})

  function ExampleCompiler(): Compiler { _ => Some(_ => false) }

  lemma CalmScope(p: Policy)
    requires p.spec.backend == KUBERNETES && p.spec.kubernetes.Some?
    ensures Scope(ExampleCompiler(), NO_READS, p.spec) == Some(TARGET_NOT_FOUND)
  {
    assert !TargetExists(NO_READS, p.spec.targetRef);
  }

  /** With its calls succeeding and no object in the way, the oldest policy renders. */
  lemma CalmRenders(c: Cluster, key: NamespacedName)
    requires Keyed(c.policies) && key in c.policies && key !in c.networkPolicies
    requires c.policies[key].spec.backend == KUBERNETES && c.policies[key].spec.kubernetes.Some?
    requires IndexedTarget(c.policies[key].spec).Some?
    requires var target := IndexedTarget(c.policies[key].spec).value;
             IsOldest(c.policies, ListByIndex(c.policies, key.namespace, target), key)
    ensures Renders(ExampleCompiler(), c, key, CALM)
  {
    CalmScope(c.policies[key]);
    NoRivalWins(c.policies, true, key, IndexedTarget(c.policies[key].spec).value);
  }

  const OLDER := NamespacedName(SHOP, "a")
  const NEWER := NamespacedName(SHOP, "b")

  ghost function ExampleStart(): Cluster {
    Cluster(map[OLDER := ExamplePolicy("a", 1, "db"), NEWER := ExamplePolicy("b", 2, "web")], map[], map[])
  }

  /** The newer policy has rendered, and the older one moved to its target. */
  ghost function ExampleMoved(): Cluster {
    var c := Step(ExampleCompiler(), ExampleStart(), NEWER, CALM);
    c.(policies := map[OLDER := ExamplePolicy("a", 1, "web"), NEWER := ExamplePolicy("b", 2, "web")])
  }

  lemma NewerRenders()
    ensures Renders(ExampleCompiler(), ExampleStart(), NEWER, CALM)
  {
    var web := TargetIndexKey(DEPLOYMENT, "web", INGRESS);
    assert |TargetIndexKey(DEPLOYMENT, "db", INGRESS)| != |web|;
    assert OLDER.name[0] != NEWER.name[0];
    assert ListByIndex(ExampleStart().policies, SHOP, web) == {NEWER};
    CalmRenders(ExampleStart(), NEWER);
  }

  lemma OlderIsOldest(policies: PolicyMap, target: string)
    requires policies == map[OLDER := ExamplePolicy("a", 1, "web"), NEWER := ExamplePolicy("b", 2, "web")]
    requires target == TargetIndexKey(DEPLOYMENT, "web", INGRESS)
    ensures Keyed(policies) && IndexedTarget(policies[OLDER].spec) == Some(target)
    ensures IsOldest(policies, ListByIndex(policies, SHOP, target), OLDER)
  {
    assert OLDER.name[0] != NEWER.name[0];
    assert ListByIndex(policies, SHOP, target) == {OLDER, NEWER};
  }

  lemma OlderRenders()
    ensures Renders(ExampleCompiler(), ExampleMoved(), OLDER, CALM)
  {
    assert OLDER.name[0] != NEWER.name[0];
    OlderIsOldest(ExampleMoved().policies, TargetIndexKey(DEPLOYMENT, "web", INGRESS));
    StepTouchesOnlyOwn(ExampleCompiler(), ExampleStart(), NEWER, CALM);
    assert Current(ExampleMoved().networkPolicies, OLDER) == None;
    CalmRenders(ExampleMoved(), OLDER);
  }

  lemma StepKeepsSpec(compile: Compiler, c: Cluster, k: NamespacedName, env: Env, key: NamespacedName)
    requires Keyed(c.policies) && key in c.policies
    ensures key in Step(compile, c, k, env).policies
    ensures Step(compile, c, k, env).policies[key].spec == c.policies[key].spec
  {
    StepPolicies(compile, c, k, env);
  }

  lemma ExampleProtects(d: Cluster)
    requires Keyed(d.policies) && ObjectSettled(d, OLDER) && ObjectSettled(d, NEWER)
    requires d.policies[OLDER].spec == ExamplePolicy("a", 1, "web").spec
    requires d.policies[NEWER].spec == ExamplePolicy("b", 2, "web").spec
    ensures OLDER in d.networkPolicies && NEWER in d.networkPolicies
  {
    SettledIsRendered(d, OLDER);
    SettledIsRendered(d, NEWER);
  }

  /** Two policies with one target, and an object for each. */
  lemma TwoObjectsForOneTarget()
    ensures var run := TakeOver(NEWER, CALM, ExampleMoved(), OLDER, CALM, CALM);
            var d := After(ExampleCompiler(), ExampleStart(), run);
            && OLDER in d.policies && NEWER in d.policies && OLDER != NEWER
            && d.policies[OLDER].spec.targetRef == d.policies[NEWER].spec.targetRef
            && d.policies[OLDER].spec.direction == d.policies[NEWER].spec.direction
            && OLDER in d.networkPolicies && NEWER in d.networkPolicies
  {
    assert OLDER.name[0] != NEWER.name[0];
    NewerRenders();
    OlderRenders();
    TakeOverLeavesBoth(ExampleCompiler(), ExampleStart(), NEWER, CALM, ExampleMoved(), OLDER, CALM, CALM);
    ExampleProtects(After(ExampleCompiler(), ExampleStart(), TakeOver(NEWER, CALM, ExampleMoved(), OLDER, CALM, CALM)));
  }
}
