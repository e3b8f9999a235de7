/** The selector-scope check of a policy
    (internal/controller/workloadnetworkpolicy_selector_scope.go and _pod_scope.go),
    against a declarative reading of the Ready reasons. */
module SelectorScope {
  import opened Api
  import opened Ownership

  const APPS_V1 := "apps/v1"
  const REPLICA_SET := "ReplicaSet"

  const SCOPE_VALID := "SelectorScopeValid"
  const OVERLAPS_WORKLOAD := "SelectorOverlapsWorkload"
  const TARGET_NOT_FOUND := "TargetNotFound"
  const DOES_NOT_MATCH_TARGET := "SelectorDoesNotMatchTarget"

  type Labels = map<string, string>

  /** A compiled labels.Selector; its semantics is not part of this model. */
  type Matcher = Labels -> bool

  /** metav1.LabelSelectorAsSelector; None is its error. */
  type Compiler = LabelSelector -> Option<Matcher>

  /** A Deployment, StatefulSet or DaemonSet; `labels` are those of its Pod template. */
  datatype Workload = Workload(name: string, labels: Labels, uid: string)
  datatype ReplicaSet = ReplicaSet(uid: string, ownerRefs: seq<OwnerRef>)
  datatype Pod = Pod(name: string, labels: Labels, ownerRefs: seq<OwnerRef>)

  /** What the client reads in the policy's namespace, with the outcome of each call:
      the three workload lists, the Pod list, and the ReplicaSets whose Get fails. */
  datatype Reads = Reads(
    deployments: seq<Workload>, statefulSets: seq<Workload>, daemonSets: seq<Workload>, workloadsOk: bool,
    pods: seq<Pod>, podsOk: bool, replicaSets: map<string, ReplicaSet>, unreadable: set<string>)

  // ----- the declarative reading -----

  ghost predicate IsWorkload(ns: Reads, kind: string, w: Workload) {
    || (kind == DEPLOYMENT && w in ns.deployments)
    || (kind == STATEFUL_SET && w in ns.statefulSets)
    || (kind == DAEMON_SET && w in ns.daemonSets)
  }

  ghost predicate UniqueNames(list: seq<Workload>) {
    forall i, j :: 0 <= i < j < |list| ==> list[i].name != list[j].name
  }

  /** The API server keeps names unique per kind and namespace. */
  ghost predicate NamesUnique(ns: Reads) {
    UniqueNames(ns.deployments) && UniqueNames(ns.statefulSets) && UniqueNames(ns.daemonSets)
  }

  ghost predicate TargetExists(ns: Reads, t: TargetRef) {
    exists w :: IsWorkload(ns, t.kind, w) && w.name == t.name
  }

  ghost predicate TargetMatches(ns: Reads, m: Matcher, t: TargetRef) {
    exists w :: IsWorkload(ns, t.kind, w) && w.name == t.name && m(w.labels)
  }

  ghost predicate OtherMatches(ns: Reads, m: Matcher, t: TargetRef) {
    exists kind, w :: IsWorkload(ns, kind, w) && TargetRef(kind, w.name) != t && m(w.labels)
  }

  ghost predicate IsRef(owner: Option<OwnerRef>, t: TargetRef, uid: string) {
    owner.Some? && owner.value.apiVersion == APPS_V1 && owner.value.kind == t.kind && owner.value.name == t.name &&
    owner.value.uid == uid
  }

  /** The target with this UID controls the Pod: directly, or, for a Deployment, through a
      ReplicaSet that is still the one the Pod refers to. */
  ghost predicate Controls(ns: Reads, t: TargetRef, uid: string, pod: Pod) {
    var c := ControllerOf(pod.ownerRefs);
    || IsRef(c, t, uid)
    || (&& t.kind == DEPLOYMENT && c.Some? && c.value.apiVersion == APPS_V1 && c.value.kind == REPLICA_SET
        && c.value.name in ns.replicaSets && ns.replicaSets[c.value.name].uid == c.value.uid
        && IsRef(ControllerOf(ns.replicaSets[c.value.name].ownerRefs), t, uid))
  }

  /** The Pod belongs to the target: to the live one, or to any of its incarnations when
      there is none. */
  ghost predicate Belongs(ns: Reads, t: TargetRef, pod: Pod) {
    exists uid :: Controls(ns, t, uid, pod) &&
                  forall w :: IsWorkload(ns, t.kind, w) && w.name == t.name ==> w.uid == uid
  }

  ghost predicate StrayPod(ns: Reads, m: Matcher, t: TargetRef) {
    exists pod :: pod in ns.pods && m(pod.labels) && !Belongs(ns, t, pod)
  }

  ghost function Verdict(ns: Reads, m: Matcher, t: TargetRef): string {
    if TargetExists(ns, t) && !TargetMatches(ns, m, t) then DOES_NOT_MATCH_TARGET
    else if OtherMatches(ns, m, t) || StrayPod(ns, m, t) then OVERLAPS_WORKLOAD
    else if !TargetExists(ns, t) then TARGET_NOT_FOUND
    else SCOPE_VALID
  }

  /** The selector reaches beyond the target: to another workload, or to a Pod that the target
      does not control. */
  ghost predicate Overreaches(ns: Reads, m: Matcher, t: TargetRef) {
    || (exists kind, w :: IsWorkload(ns, kind, w) && m(w.labels) && (kind != t.kind || w.name != t.name))
    || (exists pod :: pod in ns.pods && m(pod.labels) && !Belongs(ns, t, pod))
  }

  /** Which reason is reported, exactly: a missed target comes first, then an overreach, then a
      missing target. */
  lemma VerdictIff(ns: Reads, m: Matcher, t: TargetRef)
    ensures var reason := Verdict(ns, m, t);
            var present := exists w :: IsWorkload(ns, t.kind, w) && w.name == t.name;
            var hit := exists w :: IsWorkload(ns, t.kind, w) && w.name == t.name && m(w.labels);
            && (reason == "SelectorDoesNotMatchTarget" <==> present && !hit)
            && (reason == "SelectorOverlapsWorkload" <==> (!present || hit) && Overreaches(ns, m, t))
            && (reason == "TargetNotFound" <==> !present && !Overreaches(ns, m, t))
            && (reason == "SelectorScopeValid" <==> hit && !Overreaches(ns, m, t))
  {
    if kind, w :| IsWorkload(ns, kind, w) && m(w.labels) && (kind != t.kind || w.name != t.name) {
      assert TargetRef(kind, w.name) != t;
    }
  }

  /** What SelectorScopeValid promises: the selector covers the target and nothing else. */
  ghost predicate CoversOnly(ns: Reads, m: Matcher, t: TargetRef, target: Workload) {
    && IsWorkload(ns, t.kind, target) && target.name == t.name && m(target.labels)
    && (forall kind, w :: IsWorkload(ns, kind, w) && m(w.labels) ==> TargetRef(kind, w.name) == t)
    && (forall pod :: pod in ns.pods && m(pod.labels) ==> Controls(ns, t, target.uid, pod))
  }

  lemma OneTarget(ns: Reads, kind: string, v: Workload, w: Workload)
    requires NamesUnique(ns) && IsWorkload(ns, kind, v) && IsWorkload(ns, kind, w) && v.name == w.name
    ensures v == w
  {
  }

  /** SelectorScopeValid is sound and complete. */
  lemma ValidIffCoversOnly(ns: Reads, m: Matcher, t: TargetRef)
    requires NamesUnique(ns)
    ensures Verdict(ns, m, t) == SCOPE_VALID <==> exists target :: CoversOnly(ns, m, t, target)
  {
    if Verdict(ns, m, t) == SCOPE_VALID {
      var target :| IsWorkload(ns, t.kind, target) && target.name == t.name && m(target.labels);
      assert CoversOnly(ns, m, t, target);
    }
    if target :| CoversOnly(ns, m, t, target) {
      forall w | IsWorkload(ns, t.kind, w) && w.name == t.name
        ensures w == target
      {
        OneTarget(ns, t.kind, w, target);
      }
      assert forall pod :: pod in ns.pods && m(pod.labels) ==> Belongs(ns, t, pod);
    }
  }

  // ----- workload templates -----

  datatype Template = Template(target: TargetRef, labels: Labels, uid: string)

  function TemplateOf(kind: string, w: Workload): Template {
    Template(TargetRef(kind, w.name), w.labels, w.uid)
  }

  /** The templates stand for the workloads of the namespace, one each. */
  ghost predicate Lists(ns: Reads, templates: seq<Template>) {
    && (forall i :: 0 <= i < |templates| ==>
          var x := templates[i]; IsWorkload(ns, x.target.kind, Workload(x.target.name, x.labels, x.uid)))
    && (forall kind, w :: IsWorkload(ns, kind, w) ==> TemplateOf(kind, w) in templates)
  }

  method AppendTemplates(templates: seq<Template>, kind: string, list: seq<Workload>) returns (r: seq<Template>)
    ensures |r| == |templates| + |list|
    ensures forall i :: 0 <= i < |templates| ==> r[i] == templates[i]
    ensures forall i :: |templates| <= i < |r| ==> r[i] == TemplateOf(kind, list[i - |templates|])
  {
    r := templates;
    for i := 0 to |list|
      invariant |r| == |templates| + i
      invariant forall j :: 0 <= j < |templates| ==> r[j] == templates[j]
      invariant forall j :: |templates| <= j < |r| ==> r[j] == TemplateOf(kind, list[j - |templates|])
    {
      r := r + [TemplateOf(kind, list[i])];
    }
  }

  /** workloadTemplates, once the three lists succeeded. */
  method WorkloadTemplates(ns: Reads) returns (templates: seq<Template>)
    ensures Lists(ns, templates)
  {
    var d := AppendTemplates([], DEPLOYMENT, ns.deployments);
    var s := AppendTemplates(d, STATEFUL_SET, ns.statefulSets);
    templates := AppendTemplates(s, DAEMON_SET, ns.daemonSets);
    forall kind, w | IsWorkload(ns, kind, w)
      ensures TemplateOf(kind, w) in templates
    {
      if kind == DEPLOYMENT {
        var i :| 0 <= i < |ns.deployments| && ns.deployments[i] == w;
        assert templates[i] == TemplateOf(kind, w);
      } else if kind == STATEFUL_SET {
        var i :| 0 <= i < |ns.statefulSets| && ns.statefulSets[i] == w;
        assert templates[|d| + i] == TemplateOf(kind, w);
      } else {
        var i :| 0 <= i < |ns.daemonSets| && ns.daemonSets[i] == w;
        assert templates[|s| + i] == TemplateOf(kind, w);
      }
    }
  }

  /** matchWorkloadTemplates. Of several templates with the target's name the last decides. */
  method MatchWorkloadTemplates(m: Matcher, t: TargetRef, templates: seq<Template>)
    returns (found: bool, matches: bool, overlaps: seq<TargetRef>)
    ensures found ==> exists i :: && 0 <= i < |templates| && templates[i].target == t
                                  && matches == m(templates[i].labels)
                                  && forall j :: i < j < |templates| ==> templates[j].target != t
    ensures !found ==> !matches && forall i :: 0 <= i < |templates| ==> templates[i].target != t
    ensures forall x :: x in overlaps <==>
                        exists i :: 0 <= i < |templates| && templates[i].target == x && x != t && m(templates[i].labels)
  {
    found, matches, overlaps := false, false, [];
    for n := 0 to |templates|
      invariant found ==> exists i :: && 0 <= i < n && templates[i].target == t
                                      && matches == m(templates[i].labels)
                                      && forall j :: i < j < n ==> templates[j].target != t
      invariant !found ==> !matches && forall i :: 0 <= i < n ==> templates[i].target != t
      invariant forall x :: x in overlaps <==>
                            exists i :: 0 <= i < n && templates[i].target == x && x != t && m(templates[i].labels)
    {
      var hit := m(templates[n].labels);
      if templates[n].target == t {
        found, matches := true, hit;
      } else if hit {
        overlaps := overlaps + [templates[n].target];
      }
    }
  }

  // ----- Pods -----

  /** podWorkloadOwner; an outer None is a failed Get. */
  function PodWorkloadOwner(ns: Reads, pod: Pod): Option<Option<OwnerRef>> {
    var owner := ControllerOf(pod.ownerRefs);
    if owner.None? || owner.value.apiVersion != APPS_V1 || owner.value.kind != REPLICA_SET then Some(owner)
    else if owner.value.name in ns.unreadable then None
    else if owner.value.name !in ns.replicaSets then Some(owner)
    else
      var rs := ns.replicaSets[owner.value.name];
      if rs.uid != owner.value.uid then Some(owner)
      else
        var controller := ControllerOf(rs.ownerRefs);
        if controller.Some? && controller.value.apiVersion == APPS_V1 && controller.value.kind == DEPLOYMENT
        then Some(controller) else Some(owner)
  }

  /** The first template of the target at or after i. */
  function FirstOf(t: TargetRef, templates: seq<Template>, i: nat): (r: Option<Template>)
    requires i <= |templates|
    ensures r.Some? ==> r.value in templates && r.value.target == t
    ensures r.None? ==> forall j :: i <= j < |templates| ==> templates[j].target != t
    decreases |templates| - i
  {
    if i == |templates| then None
    else if templates[i].target == t then Some(templates[i]) else FirstOf(t, templates, i + 1)
  }

  /** podOwnerMatchesTarget */
  function PodOwnerMatchesTarget(owner: Option<OwnerRef>, t: TargetRef, templates: seq<Template>): bool {
    && owner.Some? && owner.value.apiVersion == APPS_V1 && owner.value.kind == t.kind && owner.value.name == t.name
    && var first := FirstOf(t, templates, 0);
       (first.Some? ==> owner.value.uid == first.value.uid)
  }

  /** The code's ownership test decides Belongs. */
  lemma OwnerTestExact(ns: Reads, t: TargetRef, templates: seq<Template>, pod: Pod)
    requires NamesUnique(ns) && Lists(ns, templates) && SupportedKind(t.kind)
    requires PodWorkloadOwner(ns, pod).Some?
    ensures PodOwnerMatchesTarget(PodWorkloadOwner(ns, pod).value, t, templates) <==> Belongs(ns, t, pod)
  {
    var owner := PodWorkloadOwner(ns, pod).value;
    forall uid
      ensures Controls(ns, t, uid, pod) <==> IsRef(owner, t, uid)
    {
    }
    var first := FirstOf(t, templates, 0);
    forall w | IsWorkload(ns, t.kind, w) && w.name == t.name
      ensures first.Some? && w.uid == first.value.uid
    {
      assert TemplateOf(t.kind, w) in templates;
      OneTarget(ns, t.kind, w, Workload(first.value.target.name, first.value.labels, first.value.uid));
    }
    if PodOwnerMatchesTarget(owner, t, templates) {
      assert Controls(ns, t, owner.value.uid, pod);
    }
    if Belongs(ns, t, pod) && first.Some? {
      var w := Workload(first.value.target.name, first.value.labels, first.value.uid);
      assert IsWorkload(ns, t.kind, w);
    }
  }

  /** Stale references do not count: a Pod whose ReplicaSet is gone or was replaced under its
      name belongs to no Deployment, and a Pod of an earlier workload of the target's name does
      not belong to the target. */
  lemma StaleOwnersDoNotCount(ns: Reads, t: TargetRef, pod: Pod)
    requires SupportedKind(t.kind) && ControllerOf(pod.ownerRefs).Some?
    ensures var c := ControllerOf(pod.ownerRefs).value;
            && (c.kind == "ReplicaSet" && c.name !in ns.replicaSets ==> !Belongs(ns, t, pod))
            && (c.kind == "ReplicaSet" && c.name in ns.replicaSets && ns.replicaSets[c.name].uid != c.uid ==>
                  !Belongs(ns, t, pod))
            && (c.kind != "ReplicaSet" ==>
                  forall w :: IsWorkload(ns, t.kind, w) && w.name == t.name && w.uid != c.uid ==> !Belongs(ns, t, pod))
            && (c.apiVersion != "apps/v1" ==> !Belongs(ns, t, pod))
  {
  }

  /** A matching Pod whose ReplicaSet cannot be read. */
  ghost predicate Unreadable(ns: Reads, m: Matcher) {
    exists pod :: pod in ns.pods && m(pod.labels) && PodWorkloadOwner(ns, pod).None?
  }

  /** podSelectorOverlaps: the names of the stray Pods, or None after a failed call. */
  method PodSelectorOverlaps(ns: Reads, m: Matcher, t: TargetRef, templates: seq<Template>)
    returns (r: Option<seq<string>>)
    requires NamesUnique(ns) && Lists(ns, templates) && SupportedKind(t.kind)
    ensures r.None? <==> !ns.podsOk || Unreadable(ns, m)
    ensures r.Some? ==> forall name :: name in r.value <==>
                        exists pod :: pod in ns.pods && m(pod.labels) && !Belongs(ns, t, pod) && pod.name == name
  {
    if !ns.podsOk {
      return None;
    }
    var overlaps: seq<string> := [];
    for i := 0 to |ns.pods|
      invariant forall j :: 0 <= j < i && m(ns.pods[j].labels) ==> PodWorkloadOwner(ns, ns.pods[j]).Some?
      invariant forall name :: name in overlaps <==>
                exists j :: 0 <= j < i && m(ns.pods[j].labels) && !Belongs(ns, t, ns.pods[j]) && ns.pods[j].name == name
    {
      var pod := ns.pods[i];
      if m(pod.labels) {
        var owner := PodWorkloadOwner(ns, pod);
        if owner.None? {
          return None;
        }
        OwnerTestExact(ns, t, templates, pod);
        if !PodOwnerMatchesTarget(owner.value, t, templates) {
          overlaps := overlaps + [pod.name];
        }
      }
    }
    r := Some(overlaps);
  }

  // ----- the check -----

  /** selectorScopeCondition, without the message. */
  function ScopeReason(found: bool, matches: bool, overlapping: bool): string {
    if found && !matches then DOES_NOT_MATCH_TARGET
    else if overlapping then OVERLAPS_WORKLOAD
    else if !found then TARGET_NOT_FOUND
    else SCOPE_VALID
  }

  /** GetSelector, with matchExpressions dropped for the Istio backend. */
  function PolicySelector(spec: PolicySpec): Option<LabelSelector> {
    if spec.backend == KUBERNETES then
      if spec.kubernetes.None? then None else Some(spec.kubernetes.value.podSelector)
    else if spec.backend == ISTIO then
      if spec.istio.None? then None else Some(spec.istio.value.selector.(matchExpressions := []))
    else None
  }

  /** The selector checked is the pod selector of a Kubernetes policy, and the labels alone of
      an Istio one, whose expressions are not rendered. */
  lemma PolicySelectorIs(spec: PolicySpec)
    ensures BackendPopulated(spec) ==> PolicySelector(spec).Some?
    ensures spec.backend == "kubernetes" && spec.kubernetes.Some? ==>
              PolicySelector(spec) == Some(spec.kubernetes.value.podSelector)
    ensures spec.backend == "istio" && spec.istio.Some? ==>
              PolicySelector(spec) == Some(LabelSelector(spec.istio.value.selector.matchLabels, []))
  {
  }

  function PolicyMatcher(compile: Compiler, spec: PolicySpec): Option<Matcher> {
    var selector := PolicySelector(spec);
    if selector.None? then None else compile(selector.value)
  }

  /** The Pods are looked at only when the templates left the scope open. */
  ghost predicate PodsMatter(ns: Reads, m: Matcher, t: TargetRef) {
    !OtherMatches(ns, m, t) && (!TargetExists(ns, t) || TargetMatches(ns, m, t))
  }

  lemma TemplatesDecide(ns: Reads, m: Matcher, t: TargetRef, templates: seq<Template>,
                        found: bool, matches: bool, overlaps: seq<TargetRef>)
    requires NamesUnique(ns) && Lists(ns, templates)
    requires found ==> exists i :: 0 <= i < |templates| && templates[i].target == t && matches == m(templates[i].labels)
    requires !found ==> !matches && forall i :: 0 <= i < |templates| ==> templates[i].target != t
    requires forall x :: x in overlaps <==> exists i :: && 0 <= i < |templates| && templates[i].target == x
                                                        && x != t && m(templates[i].labels)
    ensures found == TargetExists(ns, t)
    ensures matches == TargetMatches(ns, m, t)
    ensures overlaps != [] <==> OtherMatches(ns, m, t)
  {
    forall w | IsWorkload(ns, t.kind, w) && w.name == t.name
      ensures found && matches == m(w.labels)
    {
      assert TemplateOf(t.kind, w) in templates;
      var i :| 0 <= i < |templates| && templates[i].target == t && matches == m(templates[i].labels);
      OneTarget(ns, t.kind, w, Workload(templates[i].target.name, templates[i].labels, templates[i].uid));
    }
    if found {
      var i :| 0 <= i < |templates| && templates[i].target == t && matches == m(templates[i].labels);
      assert IsWorkload(ns, t.kind, Workload(templates[i].target.name, templates[i].labels, templates[i].uid));
    }
    if overlaps != [] {
      assert overlaps[0] in overlaps;
      var i :| 0 <= i < |templates| && templates[i].target == overlaps[0] && m(templates[i].labels);
      var x := templates[i];
      assert IsWorkload(ns, x.target.kind, Workload(x.target.name, x.labels, x.uid));
    }
    if OtherMatches(ns, m, t) {
      var kind, w :| IsWorkload(ns, kind, w) && TargetRef(kind, w.name) != t && m(w.labels);
      assert TemplateOf(kind, w) in templates;
      assert TargetRef(kind, w.name) in overlaps;
    }
  }

  lemma StrayNamed(ns: Reads, m: Matcher, t: TargetRef, names: seq<string>)
    requires forall name :: name in names <==>
                            exists pod :: pod in ns.pods && m(pod.labels) && !Belongs(ns, t, pod) && pod.name == name
    ensures names != [] <==> StrayPod(ns, m, t)
  {
    if names != [] {
      assert names[0] in names;
    }
    if pod :| pod in ns.pods && m(pod.labels) && !Belongs(ns, t, pod) {
      assert pod.name in names;
    }
  }

  /** The verdict, unless a call it depends on fails. */
  ghost function Scope(compile: Compiler, ns: Reads, spec: PolicySpec): Option<string> {
    var m := PolicyMatcher(compile, spec);
    if m.None? || !ns.workloadsOk then None
    else if PodsMatter(ns, m.value, spec.targetRef) && (!ns.podsOk || Unreadable(ns, m.value)) then None
    else Some(Verdict(ns, m.value, spec.targetRef))
  }

  /** checkSelectorScope: the reason of the Ready condition, or None on an error. */
  method CheckSelectorScope(compile: Compiler, ns: Reads, spec: PolicySpec) returns (r: Option<string>)
    requires NamesUnique(ns) && SupportedKind(spec.targetRef.kind)
    ensures r == Scope(compile, ns, spec)
  {
    var m := PolicyMatcher(compile, spec);
    if m.None? || !ns.workloadsOk {
      return None;
    }
    var t := spec.targetRef;
    var templates := WorkloadTemplates(ns);
    var found, matches, overlaps := MatchWorkloadTemplates(m.value, t, templates);
    TemplatesDecide(ns, m.value, t, templates, found, matches, overlaps);
    var overlapping := overlaps != [];
    if !overlapping && (!found || matches) {
      var stray := PodSelectorOverlaps(ns, m.value, t, templates);
      if stray.None? {
        return None;
      }
      overlapping := stray.value != [];
      StrayNamed(ns, m.value, t, stray.value);
    }
    r := Some(ScopeReason(found, matches, overlapping));
  }

  /** What a retained object still selects: the check of checkRetainedPolicyScope. */
  ghost function Retained(m: Option<Matcher>, ns: Reads, t: TargetRef): Option<string> {
    if m.None? || !ns.workloadsOk then None
    else if OtherMatches(ns, m.value, t) then Some(OVERLAPS_WORKLOAD)
    else if !ns.podsOk || Unreadable(ns, m.value) then None
    else if StrayPod(ns, m.value, t) then Some(OVERLAPS_WORKLOAD) else Some(DOES_NOT_MATCH_TARGET)
  }

  /** The second half of checkRetainedPolicyScope, once the retained selector is known;
      None is an error. */
  method CheckRetained(m: Option<Matcher>, ns: Reads, t: TargetRef) returns (r: Option<string>)
    requires NamesUnique(ns) && SupportedKind(t.kind)
    ensures r == Retained(m, ns, t)
  {
    if m.None? || !ns.workloadsOk {
      return None;
    }
    var templates := WorkloadTemplates(ns);
    var found, matches, overlaps := MatchWorkloadTemplates(m.value, t, templates);
    TemplatesDecide(ns, m.value, t, templates, found, matches, overlaps);
    var overlapping := overlaps != [];
    if !overlapping {
      var stray := PodSelectorOverlaps(ns, m.value, t, templates);
      if stray.None? {
        return None;
      }
      overlapping := stray.value != [];
      StrayNamed(ns, m.value, t, stray.value);
    }
    r := Some(if overlapping then OVERLAPS_WORKLOAD else DOES_NOT_MATCH_TARGET);
  }

  /** A retained object is reported as overlapping exactly when its selector overreaches, unless
      a call needed to tell fails. */
  lemma RetainedIff(m: Matcher, ns: Reads, t: TargetRef)
    requires ns.workloadsOk && ns.podsOk && !Unreadable(ns, m)
    ensures Retained(Some(m), ns, t) ==
            Some(if Overreaches(ns, m, t) then "SelectorOverlapsWorkload" else "SelectorDoesNotMatchTarget")
  {
    if kind, w :| IsWorkload(ns, kind, w) && m(w.labels) && (kind != t.kind || w.name != t.name) {
      assert TargetRef(kind, w.name) != t;
    }
  }

  /** A Pod's owner cannot be told exactly when its controller is a ReplicaSet that cannot be
      read. */
  ghost predicate OwnerUnknown(ns: Reads, pod: Pod) {
    var c := ControllerOf(pod.ownerRefs);
    c.Some? && c.value.apiVersion == "apps/v1" && c.value.kind == "ReplicaSet" && c.value.name in ns.unreadable
  }

  lemma OwnerUnknownIff(ns: Reads, pod: Pod)
    ensures PodWorkloadOwner(ns, pod).None? <==> OwnerUnknown(ns, pod)
  {
  }

  /** An error is returned exactly when the selector does not compile, a workload list fails, or
      the Pods are needed and their list, or the read of a ReplicaSet of one, fails. */
  lemma ScopeErrorIff(compile: Compiler, ns: Reads, spec: PolicySpec)
    ensures Scope(compile, ns, spec).None? <==>
            || PolicyMatcher(compile, spec).None? || !ns.workloadsOk
            || var m, t := PolicyMatcher(compile, spec).value, spec.targetRef;
               && (!ns.podsOk || exists pod :: pod in ns.pods && m(pod.labels) && OwnerUnknown(ns, pod))
               && !OtherMatches(ns, m, t) && (TargetExists(ns, t) ==> TargetMatches(ns, m, t))
  {
    forall pod ensures PodWorkloadOwner(ns, pod).None? <==> OwnerUnknown(ns, pod) { OwnerUnknownIff(ns, pod); }
  }
}
