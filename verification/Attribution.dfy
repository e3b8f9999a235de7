/** Violation attribution: which policy an observation belongs to
    (internal/controller/workloadnetworkpolicystatus_sync.go). */
module Attribution {
  import opened Api
  import opened Ownership
  import opened TargetIndex

  // ----- the indexes of one sync cycle -----

  /** findWNPOwnerRef: the first controller reference to a policy of the snapshot. */
  function OwnerFrom(refs: seq<OwnerRef>, namespace: string, snapshot: PolicyMap, i: nat): (r: Option<NamespacedName>)
    requires i <= |refs|
    ensures r.Some? ==> r.value in snapshot && r.value.namespace == namespace
    decreases |refs| - i
  {
    if i == |refs| then None
    else
      var key := NamespacedName(namespace, refs[i].name);
      if refs[i].controller && refs[i].apiVersion == WNP_API_VERSION && refs[i].kind == WNP_KIND && key in snapshot
      then Some(key) else OwnerFrom(refs, namespace, snapshot, i + 1)
  }

  /** The i-th reference makes a policy of the snapshot, named in it, the controller. */
  ghost predicate OwnedAt(refs: seq<OwnerRef>, namespace: string, snapshot: PolicyMap, i: nat, key: NamespacedName) {
    && i < |refs| && refs[i].controller && refs[i].apiVersion == "networkenforcer.kubewarden.io/v1alpha1"
    && refs[i].kind == "WorkloadNetworkPolicy" && key == NamespacedName(namespace, refs[i].name) && key in snapshot
  }

  /** The owner is the policy of the first such reference. */
  lemma {:induction false} OwnerFromIff(
    refs: seq<OwnerRef>, namespace: string, snapshot: PolicyMap, i: nat, key: NamespacedName)
    requires i <= |refs|
    ensures OwnerFrom(refs, namespace, snapshot, i) == Some(key) <==>
            exists k :: && i <= k && OwnedAt(refs, namespace, snapshot, k, key)
                        && forall j, other :: i <= j < k ==> !OwnedAt(refs, namespace, snapshot, j, other)
    decreases |refs| - i
  {
    if i < |refs| {
      OwnerFromIff(refs, namespace, snapshot, i + 1, key);
      assert WNP_API_VERSION == "networkenforcer.kubewarden.io/v1alpha1";
      if OwnedAt(refs, namespace, snapshot, i, NamespacedName(namespace, refs[i].name)) {
        assert OwnerFrom(refs, namespace, snapshot, i) == Some(NamespacedName(namespace, refs[i].name));
      } else {
        assert forall other :: !OwnedAt(refs, namespace, snapshot, i, other);
        assert OwnerFrom(refs, namespace, snapshot, i) == OwnerFrom(refs, namespace, snapshot, i + 1);
      }
    }
  }

  /** The first reference that makes a policy of the snapshot the controller names this one. */
  ghost predicate FirstOwner(refs: seq<OwnerRef>, namespace: string, snapshot: PolicyMap, key: NamespacedName) {
    exists k :: && 0 <= k && OwnedAt(refs, namespace, snapshot, k, key)
                && forall j, other :: 0 <= j < k ==> !OwnedAt(refs, namespace, snapshot, j, other)
  }

  type OwnedIndex = map<NamespacedName, Option<NamespacedName>>

  /** buildOwnershipIndex, from the listed NetworkPolicies and their owner references. */
  method BuildOwnershipIndex(policies: map<NamespacedName, seq<OwnerRef>>, snapshot: PolicyMap)
    returns (index: OwnedIndex)
    ensures index.Keys == policies.Keys
    ensures forall k :: k in index ==> index[k] == OwnerFrom(policies[k], k.namespace, snapshot, 0)
    ensures forall k, owner :: k in index ==>
                                 (index[k] == Some(owner) <==> FirstOwner(policies[k], k.namespace, snapshot, owner))
  {
    index := map[];
    var rest := policies.Keys;
    while rest != {}
      invariant index.Keys == policies.Keys - rest
      invariant forall k :: k in index ==> index[k] == OwnerFrom(policies[k], k.namespace, snapshot, 0)
      decreases rest
    {
      var k :| k in rest;
      index := index[k := OwnerFrom(policies[k], k.namespace, snapshot, 0)];
      rest := rest - {k};
    }
    forall k, owner | k in index
      ensures index[k] == Some(owner) <==> FirstOwner(policies[k], k.namespace, snapshot, owner)
    {
      OwnerFromIff(policies[k], k.namespace, snapshot, 0, owner);
    }
  }

  datatype WnpTarget = WnpTarget(namespace: string, target: string)

  /** wnpTargetKey */
  function TargetOf(p: Policy): Option<WnpTarget> {
    var key := IndexedTarget(p.spec);
    if key.None? then None else Some(WnpTarget(p.key.namespace, key.value))
  }

  ghost function Targeting(snapshot: PolicyMap, within: set<NamespacedName>, t: WnpTarget): set<NamespacedName> {
    set k | k in within && k in snapshot && TargetOf(snapshot[k]) == Some(t)
  }

  ghost predicate Duplicated(snapshot: PolicyMap, t: WnpTarget) { |Targeting(snapshot, snapshot.Keys, t)| > 1 }

  ghost function CountOf(snapshot: PolicyMap, within: set<NamespacedName>, t: WnpTarget): nat {
    |Targeting(snapshot, within, t)|
  }

  lemma CountGrows(snapshot: PolicyMap, within: set<NamespacedName>, k: NamespacedName, t: WnpTarget)
    requires k in snapshot && k !in within
    ensures CountOf(snapshot, within + {k}, t) ==
            CountOf(snapshot, within, t) + if TargetOf(snapshot[k]) == Some(t) then 1 else 0
  {
    var before := Targeting(snapshot, within, t);
    if TargetOf(snapshot[k]) == Some(t) {
      assert Targeting(snapshot, within + {k}, t) == before + {k};
    } else {
      assert Targeting(snapshot, within + {k}, t) == before;
    }
  }

  function Entry(counts: map<WnpTarget, int>, t: WnpTarget): int { if t in counts then counts[t] else 0 }

  ghost predicate Tallied(snapshot: PolicyMap, within: set<NamespacedName>, counts: map<WnpTarget, int>) {
    forall t :: Entry(counts, t) == CountOf(snapshot, within, t)
  }

  lemma TallyOne(snapshot: PolicyMap, within: set<NamespacedName>, counts: map<WnpTarget, int>, k: NamespacedName)
    requires k in snapshot && k !in within && Tallied(snapshot, within, counts)
    ensures var t := TargetOf(snapshot[k]);
            Tallied(snapshot, within + {k}, if t.None? then counts else counts[t.value := Entry(counts, t.value) + 1])
  {
    forall t
      ensures CountOf(snapshot, within + {k}, t) ==
              CountOf(snapshot, within, t) + if TargetOf(snapshot[k]) == Some(t) then 1 else 0
    {
      CountGrows(snapshot, within, k, t);
    }
  }

  lemma TallyDecides(snapshot: PolicyMap, counts: map<WnpTarget, int>)
    requires Tallied(snapshot, snapshot.Keys, counts)
    ensures forall t :: t in counts && counts[t] > 1 <==> Duplicated(snapshot, t)
  {
    forall t
      ensures t in counts && counts[t] > 1 <==> Duplicated(snapshot, t)
    {
      assert Entry(counts, t) == CountOf(snapshot, snapshot.Keys, t);
    }
  }

  /** duplicateTargets: count the policies per target, keep the targets counted twice. */
  method DuplicateTargets(snapshot: PolicyMap) returns (duplicates: set<WnpTarget>)
    ensures forall t :: t in duplicates <==> Duplicated(snapshot, t)
  {
    var counts: map<WnpTarget, int> := map[];
    var done, rest := {}, snapshot.Keys;
    while rest != {}
      invariant done + rest == snapshot.Keys && done !! rest
      invariant Tallied(snapshot, done, counts)
      decreases rest
    {
      var k :| k in rest;
      TallyOne(snapshot, done, counts, k);
      var t := TargetOf(snapshot[k]);
      if t.Some? {
        counts := counts[t.value := Entry(counts, t.value) + 1];
      }
      done, rest := done + {k}, rest - {k};
    }
    assert done == snapshot.Keys;
    duplicates := set t | t in counts && counts[t] > 1;
    TallyDecides(snapshot, counts);
  }

  // ----- the chain -----

  datatype Reason = UnknownSubject | NoTargetPolicy | DuplicateTargetPolicy | LookupFailed
  datatype Verdict = Attributed(key: NamespacedName) | Unattributed(reason: Reason)

  /** What the cycle computed once. */
  datatype Cycle = Cycle(snapshot: PolicyMap, owned: OwnedIndex, duplicates: set<WnpTarget>)

  /** What the live client answers while one observation is attributed: the policies in
      its cache, whether List succeeds, and the AuthorizationPolicies Get finds. */
  datatype Live = Live(cache: PolicyMap, listOk: bool, authorizationPolicies: map<NamespacedName, seq<OwnerRef>>)

  /** violationSubject: the side the violated policy selects. */
  function ViolationSubject(obs: Observation): Option<WorkloadRef> {
    if obs.direction != EGRESS && obs.direction != INGRESS then None
    else
      var subject := if obs.direction == EGRESS then obs.info.source else obs.info.dest;
      if subject.namespace == "" || subject.ownerName == "" || !SupportedKind(subject.ownerKind) then None
      else Some(subject)
  }

  /** The subject is the source of an egress flow and the destination of an ingress flow, if it
      is a Deployment, StatefulSet or DaemonSet with a name and a namespace. */
  lemma SubjectIff(obs: Observation, s: WorkloadRef)
    ensures ViolationSubject(obs) == Some(s) <==>
            && s.namespace != "" && s.ownerName != ""
            && (s.ownerKind == "Deployment" || s.ownerKind == "StatefulSet" || s.ownerKind == "DaemonSet")
            && (|| (obs.direction == "Egress" && s == obs.info.source)
                || (obs.direction == "Ingress" && s == obs.info.dest))
  {
  }

  /** reportedOwningWNP: the key of the policy owning the reported object. */
  function ReportedOwner(obs: Observation, cycle: Cycle, live: Live): Option<NamespacedName> {
    var reported := NamespacedName(obs.info.denyingNamespace, obs.info.denyingName);
    if obs.info.denyingName == "" then None
    else if obs.provider == ISTIO then
      if reported in cycle.snapshot && reported in live.authorizationPolicies &&
         ControlledBy(live.authorizationPolicies[reported], cycle.snapshot[reported].uid)
      then Some(reported) else None
    else if reported in cycle.owned then cycle.owned[reported]
    else if reported in cycle.snapshot then Some(reported) else None
  }

  /** A report is trusted exactly when: it names an AuthorizationPolicy that the policy of that
      name controls (Istio), a NetworkPolicy with an owner in the snapshot, or no NetworkPolicy
      at all but a policy of the snapshot (Kubernetes). */
  lemma ReportedOwnerIff(obs: Observation, cycle: Cycle, live: Live, k: NamespacedName)
    ensures var reported := NamespacedName(obs.info.denyingNamespace, obs.info.denyingName);
            ReportedOwner(obs, cycle, live) == Some(k) <==>
            && reported.name != ""
            && (if obs.provider == "istio"
                then && k == reported && k in cycle.snapshot && k in live.authorizationPolicies
                     && var c := ControllerOf(live.authorizationPolicies[k]);
                        c.Some? && c.value.uid == cycle.snapshot[k].uid
                else || (reported in cycle.owned && cycle.owned[reported] == Some(k))
                     || (reported !in cycle.owned && k == reported && k in cycle.snapshot))
  {
  }

  function TargetsSubject(p: Policy, subject: WorkloadRef): bool {
    && p.key.namespace == subject.namespace
    && p.spec.targetRef.kind == subject.ownerKind
    && p.spec.targetRef.name == subject.ownerName
  }

  /** attributeViolation and attributeReportedPolicy; the second result says that the
      disagreement counter is bumped. */
  function Attribute(obs: Observation, cycle: Cycle, live: Live): (Verdict, bool)
    requires forall k :: k in cycle.owned && cycle.owned[k].Some? ==> cycle.owned[k].value in cycle.snapshot
  {
    var subject := ViolationSubject(obs);
    if subject.None? then (Unattributed(UnknownSubject), false)
    else
      var s := subject.value;
      var key := WnpTarget(s.namespace, TargetIndexKey(s.ownerKind, s.ownerName, obs.direction));
      if key in cycle.duplicates then (Unattributed(DuplicateTargetPolicy), false)
      else
        var found := LookupByTarget(live.cache, live.listOk, s.namespace, s.ownerKind, s.ownerName, obs.direction);
        var reported := ReportedOwner(obs, cycle, live);
        var targets := reported.Some? && TargetsSubject(cycle.snapshot[reported.value], s);
        if targets && cycle.snapshot[reported.value].spec.direction == obs.direction then
          if found == ListFailed then (Unattributed(LookupFailed), false)
          else if found == DuplicateTarget then (Unattributed(DuplicateTargetPolicy), false)
          else (Attributed(cycle.snapshot[reported.value].key), false)
        else
          var disagrees := reported.Some? && !targets;
          match found
          case TargetNotFound => (Unattributed(NoTargetPolicy), disagrees)
          case DuplicateTarget => (Unattributed(DuplicateTargetPolicy), disagrees)
          case ListFailed => (Unattributed(LookupFailed), disagrees)
          case Found(k) => (if k in cycle.snapshot then Attributed(k) else Unattributed(NoTargetPolicy), disagrees)
  }

  // ----- what it refines -----

  /** The specification: the one policy that targets the subject in that direction. */
  ghost function Owner(obs: Observation, policies: PolicyMap): Verdict {
    var subject := ViolationSubject(obs);
    if subject.None? then Unattributed(UnknownSubject)
    else
      var s := subject.value;
      var targets := ListByTarget(policies, s.namespace, s.ownerKind, s.ownerName, obs.direction);
      if |targets| == 0 then Unattributed(NoTargetPolicy)
      else if |targets| > 1 then Unattributed(DuplicateTargetPolicy)
      else
        var k :| k in targets;
        Attributed(k)
  }

  /** The cycle was built from its snapshot. */
  ghost predicate BuiltFrom(cycle: Cycle) {
    && SchemaValid(cycle.snapshot)
    && (forall k :: k in cycle.owned && cycle.owned[k].Some? ==> cycle.owned[k].value in cycle.snapshot)
    && (forall t :: t in cycle.duplicates <==> Duplicated(cycle.snapshot, t))
  }

  /** The counted targets are the indexed lookups. */
  lemma TargetingIsListing(snapshot: PolicyMap, s: WorkloadRef, direction: string)
    requires SchemaValid(snapshot) && Learnable(s.ownerKind, s.ownerName, direction)
    ensures Targeting(snapshot, snapshot.Keys,
                      WnpTarget(s.namespace, TargetIndexKey(s.ownerKind, s.ownerName, direction))) ==
            ListByTarget(snapshot, s.namespace, s.ownerKind, s.ownerName, direction)
  {
    IndexEqualsTuple(snapshot, s.namespace, s.ownerKind, s.ownerName, direction);
    var key := TargetIndexKey(s.ownerKind, s.ownerName, direction);
    assert Targeting(snapshot, snapshot.Keys, WnpTarget(s.namespace, key)) == ListByIndex(snapshot, s.namespace, key);
  }

  lemma LookupSpec(cache: PolicyMap, listOk: bool, s: WorkloadRef, direction: string)
    requires SchemaValid(cache) && Learnable(s.ownerKind, s.ownerName, direction)
    ensures var found := LookupByTarget(cache, listOk, s.namespace, s.ownerKind, s.ownerName, direction);
            var targets := ListByTarget(cache, s.namespace, s.ownerKind, s.ownerName, direction);
            && (found == ListFailed <==> !listOk)
            && (listOk ==> (found == TargetNotFound <==> |targets| == 0))
            && (listOk ==> (found == DuplicateTarget <==> |targets| > 1))
            && (found.Found? ==> targets == {found.key})
  {
    IndexEqualsTuple(cache, s.namespace, s.ownerKind, s.ownerName, direction);
    var targets := ListByTarget(cache, s.namespace, s.ownerKind, s.ownerName, direction);
    var found := LookupByTarget(cache, listOk, s.namespace, s.ownerKind, s.ownerName, direction);
    if found.Found? {
      forall x | x in targets ensures x == found.key { OnlyElement(targets, x, found.key); }
    }
  }

  /** Refinement: when the cache agrees with the snapshot and the lookup succeeds, the
      whole chain computes the one policy targeting the subject, whatever object the
      data plane reported; the report can only bump the disagreement counter. */
  lemma AttributionRefines(obs: Observation, cycle: Cycle, live: Live)
    requires BuiltFrom(cycle) && live.cache == cycle.snapshot && live.listOk
    ensures Attribute(obs, cycle, live).0 == Owner(obs, cycle.snapshot)
  {
    var subject := ViolationSubject(obs);
    if subject.Some? {
      var s := subject.value;
      TargetingIsListing(cycle.snapshot, s, obs.direction);
      LookupSpec(live.cache, live.listOk, s, obs.direction);
      var targets := ListByTarget(cycle.snapshot, s.namespace, s.ownerKind, s.ownerName, obs.direction);
      var reported := ReportedOwner(obs, cycle, live);
      if |targets| == 1 {
        forall x, y | x in targets && y in targets ensures x == y { OnlyElement(targets, x, y); }
      }
      if reported.Some? && TargetsSubject(cycle.snapshot[reported.value], s) &&
         cycle.snapshot[reported.value].spec.direction == obs.direction {
        assert reported.value in targets;
      }
    }
  }

  ghost predicate SubjectDuplicated(cycle: Cycle, s: WorkloadRef, direction: string) {
    WnpTarget(s.namespace, TargetIndexKey(s.ownerKind, s.ownerName, direction)) in cycle.duplicates
  }

  lemma DisagreesWhen(obs: Observation, cycle: Cycle, live: Live)
    requires BuiltFrom(cycle)
    ensures Attribute(obs, cycle, live).1 <==>
            && ViolationSubject(obs).Some? && !SubjectDuplicated(cycle, ViolationSubject(obs).value, obs.direction)
            && ReportedOwner(obs, cycle, live).Some?
            && !TargetsSubject(cycle.snapshot[ReportedOwner(obs, cycle, live).value], ViolationSubject(obs).value)
  {
  }

  lemma DuplicatedIff(cycle: Cycle, s: WorkloadRef, direction: string)
    requires BuiltFrom(cycle) && Learnable(s.ownerKind, s.ownerName, direction)
    ensures SubjectDuplicated(cycle, s, direction) <==>
            |ListByTarget(cycle.snapshot, s.namespace, s.ownerKind, s.ownerName, direction)| > 1
  {
    TargetingIsListing(cycle.snapshot, s, direction);
  }

  /** A disagreement is counted exactly when the reported object belongs to a policy for
      another workload while the subject's own target is known once at most. */
  lemma DisagreementIff(obs: Observation, cycle: Cycle, live: Live)
    requires BuiltFrom(cycle)
    ensures Attribute(obs, cycle, live).1 <==>
            && ViolationSubject(obs).Some? && ReportedOwner(obs, cycle, live).Some?
            && var s, k := ViolationSubject(obs).value, ReportedOwner(obs, cycle, live).value;
               && |ListByTarget(cycle.snapshot, s.namespace, s.ownerKind, s.ownerName, obs.direction)| <= 1
               && (|| k.namespace != s.namespace
                   || cycle.snapshot[k].spec.targetRef != TargetRef(s.ownerKind, s.ownerName))
  {
    DisagreesWhen(obs, cycle, live);
    if ViolationSubject(obs).Some? {
      DuplicatedIff(cycle, ViolationSubject(obs).value, obs.direction);
    }
  }

  /** An observation is attributed by the reported policy, when it targets the subject, or
      else by the lookup; either way no second policy is known. */
  lemma AttributedHow(obs: Observation, cycle: Cycle, live: Live)
    requires BuiltFrom(cycle) && Attribute(obs, cycle, live).0.Attributed?
    ensures ViolationSubject(obs).Some?
    ensures var k, s := Attribute(obs, cycle, live).0.key, ViolationSubject(obs).value;
            var found := LookupByTarget(live.cache, live.listOk, s.namespace, s.ownerKind, s.ownerName, obs.direction);
            && !SubjectDuplicated(cycle, s, obs.direction) && !found.DuplicateTarget? && !found.ListFailed?
            && k in cycle.snapshot
            && (found == Found(k) ||
                (TargetsSubject(cycle.snapshot[k], s) && cycle.snapshot[k].spec.direction == obs.direction))
  {
  }

  /** With a stale snapshot, an attributed key is still safe: it is in the snapshot and
      in the subject's namespace, it targets the subject in the snapshot or in the
      cache, and neither of them knows a second policy for the target. */
  lemma AttributionSafe(obs: Observation, cycle: Cycle, live: Live)
    requires BuiltFrom(cycle) && SchemaValid(live.cache)
    requires Attribute(obs, cycle, live).0.Attributed?
    ensures ViolationSubject(obs).Some?
    ensures var k, s := Attribute(obs, cycle, live).0.key, ViolationSubject(obs).value;
            && k in cycle.snapshot && k.namespace == s.namespace
            && (|| Targets(cycle.snapshot[k], s.ownerKind, s.ownerName, obs.direction)
                || (k in live.cache && Targets(live.cache[k], s.ownerKind, s.ownerName, obs.direction)))
            && |ListByTarget(cycle.snapshot, s.namespace, s.ownerKind, s.ownerName, obs.direction)| <= 1
            && |ListByTarget(live.cache, s.namespace, s.ownerKind, s.ownerName, obs.direction)| <= 1
  {
    AttributedHow(obs, cycle, live);
    var s := ViolationSubject(obs).value;
    DuplicatedIff(cycle, s, obs.direction);
    LookupSpec(live.cache, live.listOk, s, obs.direction);
    var found := LookupByTarget(live.cache, live.listOk, s.namespace, s.ownerKind, s.ownerName, obs.direction);
    if found.Found? {
      assert found.key in ListByTarget(live.cache, s.namespace, s.ownerKind, s.ownerName, obs.direction);
    }
  }

  /** The reported policy targets the subject in the observed direction. */
  ghost predicate ReportAgrees(obs: Observation, cycle: Cycle, live: Live, s: WorkloadRef)
    requires BuiltFrom(cycle)
  {
    var r := ReportedOwner(obs, cycle, live);
    r.Some? && cycle.snapshot[r.value].key.namespace == s.namespace &&
    Targets(cycle.snapshot[r.value], s.ownerKind, s.ownerName, obs.direction)
  }

  lemma VerdictWhen(obs: Observation, cycle: Cycle, live: Live)
    requires BuiltFrom(cycle)
    ensures var verdict, subject := Attribute(obs, cycle, live).0, ViolationSubject(obs);
            if subject.None? then verdict == Unattributed(UnknownSubject)
            else
              var s := subject.value;
              var found := LookupByTarget(
                live.cache, live.listOk, s.namespace, s.ownerKind, s.ownerName, obs.direction);
              if SubjectDuplicated(cycle, s, obs.direction) || found.DuplicateTarget?
              then verdict == Unattributed(DuplicateTargetPolicy)
              else if found.ListFailed? then verdict == Unattributed(LookupFailed)
              else if ReportAgrees(obs, cycle, live, s)
              then verdict == Attributed(ReportedOwner(obs, cycle, live).value)
              else if found.Found? && found.key in cycle.snapshot then verdict == Attributed(found.key)
              else verdict == Unattributed(NoTargetPolicy)
  {
  }

  /** Every verdict, for any snapshot and cache: unknown subject; duplicated in the snapshot or in
      the cache; lookup failed; else the reported policy if it targets the subject; else the only
      policy of the cache that does, if the snapshot has it; else none. */
  lemma VerdictExact(obs: Observation, cycle: Cycle, live: Live)
    requires BuiltFrom(cycle) && SchemaValid(live.cache)
    ensures var verdict, subject := Attribute(obs, cycle, live).0, ViolationSubject(obs);
            if subject.None? then verdict == Unattributed(UnknownSubject)
            else
              var s := subject.value;
              var known := ListByTarget(cycle.snapshot, s.namespace, s.ownerKind, s.ownerName, obs.direction);
              var cached := ListByTarget(live.cache, s.namespace, s.ownerKind, s.ownerName, obs.direction);
              if |known| > 1 || (live.listOk && |cached| > 1) then verdict == Unattributed(DuplicateTargetPolicy)
              else if !live.listOk then verdict == Unattributed(LookupFailed)
              else if ReportAgrees(obs, cycle, live, s)
              then verdict == Attributed(ReportedOwner(obs, cycle, live).value)
              else if exists k :: cached == {k} && k in cycle.snapshot
              then verdict.Attributed? && cached == {verdict.key} && verdict.key in cycle.snapshot
              else verdict == Unattributed(NoTargetPolicy)
  {
    VerdictWhen(obs, cycle, live);
    var subject := ViolationSubject(obs);
    if subject.Some? {
      DuplicatedIff(cycle, subject.value, obs.direction);
      LookupSpec(live.cache, live.listOk, subject.value, obs.direction);
    }
  }
}
