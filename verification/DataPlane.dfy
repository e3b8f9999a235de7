/** The guarded write of the rendered object, shared by
    internal/controller/workloadnetworkpolicy_reconcile_k8s.go and
    internal/controller/workloadnetworkpolicy_reconcile_istio.go. */
module DataPlane {
  import opened Api
  import opened Text
  import opened Ownership

  const MANAGED_BY_LABEL := "app.kubernetes.io/managed-by"
  const MANAGED_BY := "network-enforcer"
  const DRY_RUN_ANNOTATION := "istio.io/dry-run"

  const OWNERSHIP_CONFLICT := "PolicyOwnershipConflict"
  const RECONCILIATION_FAILED := "PolicyReconciliationFailed"

  // ----- controllerutil.SetControllerReference -----

  /** schema.ParseGroupVersion: the group of an apiVersion, None when it does not parse. */
  function Group(apiVersion: string): Option<string> {
    var (first, rest) := Cut(apiVersion, '/');
    if apiVersion == "" || apiVersion == "/" || '/' !in apiVersion then Some("")
    else if '/' in rest then None else Some(first)
  }

  /** referSameObject: group, kind and name, but not the UID. */
  predicate SameObject(a: OwnerRef, b: OwnerRef) {
    Group(a.apiVersion).Some? && Group(a.apiVersion) == Group(b.apiVersion) && a.kind == b.kind && a.name == b.name
  }

  function IndexOfSame(refs: seq<OwnerRef>, ref: OwnerRef, i: nat): (k: nat)
    requires i <= |refs|
    ensures i <= k <= |refs| && (k < |refs| ==> SameObject(refs[k], ref))
    ensures forall j :: i <= j < k ==> !SameObject(refs[j], ref)
    decreases |refs| - i
  {
    if i == |refs| || SameObject(refs[i], ref) then i else IndexOfSame(refs, ref, i + 1)
  }

  /** None is the error for an object that another owner already controls. */
  function SetControllerReference(refs: seq<OwnerRef>, ref: OwnerRef): Option<seq<OwnerRef>> {
    var existing := ControllerOf(refs);
    if existing.Some? && !SameObject(existing.value, ref) then None
    else
      var k := IndexOfSame(refs, ref, 0);
      Some(if k == |refs| then refs + [ref] else refs[k := ref])
  }

  lemma {:induction false} ControllerAt(refs: seq<OwnerRef>, i: nat, k: nat)
    requires i <= k < |refs| && refs[k].controller && forall j :: i <= j < k ==> !refs[j].controller
    ensures ControllerFrom(refs, i) == Some(refs[k])
    decreases k - i
  {
    if i < k {
      ControllerAt(refs, i + 1, k);
    }
  }

  lemma {:induction false} ControllerIndex(refs: seq<OwnerRef>, i: nat) returns (k: nat)
    requires i <= |refs|
    ensures i <= k <= |refs| && (forall j :: i <= j < k ==> !refs[j].controller)
    ensures ControllerFrom(refs, i) == if k == |refs| then None else Some(refs[k])
    ensures k < |refs| ==> refs[k].controller
    decreases |refs| - i
  {
    if i == |refs| || refs[i].controller {
      k := i;
    } else {
      k := ControllerIndex(refs, i + 1);
    }
  }

  lemma IndexOfSameAt(refs: seq<OwnerRef>, ref: OwnerRef, k: nat)
    requires k < |refs| && SameObject(refs[k], ref) && forall j :: 0 <= j < k ==> !SameObject(refs[j], ref)
    ensures IndexOfSame(refs, ref, 0) == k
  {
    var i := IndexOfSame(refs, ref, 0);
    assert i <= k;
  }

  /** A recorded controller reference makes the owner the controller, and recording it
      again changes nothing. */
  lemma ControllerReferenceSticks(refs: seq<OwnerRef>, ref: OwnerRef)
    requires ref.controller && Group(ref.apiVersion).Some? && SetControllerReference(refs, ref).Some?
    ensures var r := SetControllerReference(refs, ref).value;
            ControllerOf(r) == Some(ref) && SetControllerReference(r, ref) == Some(r)
  {
    var k := IndexOfSame(refs, ref, 0);
    var c := ControllerIndex(refs, 0);
    var r := SetControllerReference(refs, ref).value;
    assert k <= c;
    assert r[k] == ref && forall j :: 0 <= j < k ==> r[j] == refs[j];
    ControllerAt(r, 0, k);
    IndexOfSameAt(r, ref, k);
    assert r[k := ref] == r;
  }

  /** Every other owner reference stays. */
  lemma ControllerReferenceKeepsOthers(refs: seq<OwnerRef>, ref: OwnerRef, other: OwnerRef)
    requires SetControllerReference(refs, ref).Some? && other in refs && !SameObject(other, ref)
    ensures other in SetControllerReference(refs, ref).value
  {
    var i :| 0 <= i < |refs| && refs[i] == other;
    assert SetControllerReference(refs, ref).value[i] == other;
  }

  function ControllerRef(wnp: Policy): OwnerRef {
    OwnerRef(WNP_API_VERSION, WNP_KIND, wnp.key.name, wnp.uid, true)
  }

  lemma GroupOfPair(group: string, version: string)
    requires '/' !in group && '/' !in version && group != ""
    ensures Group(group + "/" + version) == Some(group)
  {
    CutAt(group, '/', version);
    assert (group + "/" + version)[|group|] == '/';
  }

  /** Versions of the core group have no slash, and more than one slash is malformed. */
  lemma GroupOfOthers(version: string, a: string, b: string, c: string)
    requires '/' !in version && '/' !in a
    ensures Group(version) == Some("") && Group(a + "/" + (b + "/" + c)) == None
  {
    var s := a + "/" + (b + "/" + c);
    CutAt(a, '/', b + "/" + c);
    assert (b + "/" + c)[|b|] == '/' && s[|a|] == '/';
    assert |s| >= 2;
  }

  // ----- rendering -----

  datatype Object<+S> = Object(
    ownerRefs: seq<OwnerRef>, labels: map<string, string>, annotations: map<string, string>, spec: S)

  datatype DryRun = Untouched | Enabled | Disabled

  function Annotated(annotations: map<string, string>, dryRun: DryRun): map<string, string> {
    match dryRun
    case Untouched => annotations
    case Enabled => annotations[DRY_RUN_ANNOTATION := "true"]
    case Disabled => annotations - {DRY_RUN_ANNOTATION}
  }

  /** What the policy asks for at its own name. */
  datatype Desired<+S> = Absent | Present(spec: S, dryRun: DryRun)

  /** The mutate function of CreateOrUpdate and CreateOrPatch. */
  function Render<S>(wnp: Policy, current: Option<Object<S>>, want: Desired<S>): Option<Object<S>>
    requires want.Present?
  {
    var base := if current.Some? then current.value else Object([], map[], map[], want.spec);
    var refs := SetControllerReference(base.ownerRefs, ControllerRef(wnp));
    if refs.None? then None
    else Some(Object(refs.value, base.labels[MANAGED_BY_LABEL := MANAGED_BY],
                     Annotated(base.annotations, want.dryRun), want.spec))
  }

  type Objects<+S> = map<NamespacedName, Object<S>>

  function Current<S>(objects: Objects<S>, key: NamespacedName): Option<Object<S>> {
    if key in objects then Some(objects[key]) else None
  }

  /** The object is the one the policy asks for, and the policy's to change. */
  ghost predicate Matches<S>(wnp: Policy, o: Object<S>, want: Desired<S>) {
    && want.Present? && o.spec == want.spec
    && MANAGED_BY_LABEL in o.labels && o.labels[MANAGED_BY_LABEL] == MANAGED_BY
    && (want.dryRun.Enabled? ==>
          DRY_RUN_ANNOTATION in o.annotations && o.annotations[DRY_RUN_ANNOTATION] == "true")
    && (want.dryRun.Disabled? ==> DRY_RUN_ANNOTATION !in o.annotations)
    && ControllerOf(o.ownerRefs) == Some(ControllerRef(wnp))
    && SetControllerReference(o.ownerRefs, ControllerRef(wnp)) == Some(o.ownerRefs)
  }

  /** The policy's name holds what it asks for. */
  ghost predicate Settled<S>(objects: Objects<S>, wnp: Policy, want: Desired<S>) {
    if want.Absent? then wnp.key !in objects
    else wnp.key in objects && Matches(wnp, objects[wnp.key], want)
  }

  lemma RenderMatches<S>(wnp: Policy, current: Option<Object<S>>, want: Desired<S>)
    requires want.Present? && Render(wnp, current, want).Some?
    ensures Matches(wnp, Render(wnp, current, want).value, want)
  {
    GroupOfPair(WNP_GROUP, WNP_VERSION);
    var refs := if current.Some? then current.value.ownerRefs else [];
    ControllerReferenceSticks(refs, ControllerRef(wnp));
  }

  /** Rendering over a matching object changes nothing. */
  lemma RenderSettled<S>(wnp: Policy, o: Object<S>, want: Desired<S>)
    requires Matches(wnp, o, want)
    ensures Render(wnp, Some(o), want) == Some(o)
  {
    assert o.labels[MANAGED_BY_LABEL := MANAGED_BY] == o.labels;
    assert Annotated(o.annotations, want.dryRun) == o.annotations;
  }

  /** Rendering keeps every label and annotation it does not own. */
  lemma RenderKeepsOthers<S>(wnp: Policy, o: Object<S>, want: Desired<S>)
    requires want.Present? && Render(wnp, Some(o), want).Some?
    ensures var r := Render(wnp, Some(o), want).value;
            && r.labels - {MANAGED_BY_LABEL} == o.labels - {MANAGED_BY_LABEL}
            && r.annotations - {DRY_RUN_ANNOTATION} == o.annotations - {DRY_RUN_ANNOTATION}
  {
  }

  // ----- the guarded write -----

  /** An API write: persisted, rejected, or persisted with the answer lost. */
  datatype Write = Done | Refused | AnswerLost

  /** The API calls of one data-plane reconciliation. */
  datatype Calls = Calls(getOk: bool, rereadOk: bool, write: Write)

  datatype Outcome<+S> = Outcome(objects: Objects<S>, error: Option<string>)

  function Written<S>(before: Objects<S>, after: Objects<S>, write: Write): Outcome<S> {
    if write.Refused? then Outcome(before, Some(RECONCILIATION_FAILED))
    else Outcome(after, if write.Done? then None else Some(RECONCILIATION_FAILED))
  }

  /** CreateOrUpdate or CreateOrPatch: no call is made for an unchanged object. */
  function Upserted<S(==)>(objects: Objects<S>, wnp: Policy, want: Desired<S>, calls: Calls): Outcome<S>
    requires want.Present?
  {
    var current := Current(objects, wnp.key);
    var next := Render(wnp, current, want);
    if !calls.rereadOk || next.None? then Outcome(objects, Some(RECONCILIATION_FAILED))
    else if next == current then Outcome(objects, None)
    else Written(objects, objects[wnp.key := next.value], calls.write)
  }

  /** One reconciliation of the object with the policy's name. */
  function Reconciled<S(==)>(objects: Objects<S>, wnp: Policy, want: Desired<S>, calls: Calls): Outcome<S> {
    var key := wnp.key;
    if !calls.getOk then Outcome(objects, Some(RECONCILIATION_FAILED))
    else if key in objects && !ControlledBy(objects[key].ownerRefs, wnp.uid) then
      Outcome(objects, Some(OWNERSHIP_CONFLICT))
    else if want.Absent? then
      if key !in objects then Outcome(objects, None) else Written(objects, objects - {key}, calls.write)
    else Upserted(objects, wnp, want, calls)
  }

  /** Only the object with the policy's own name is written or deleted, and only when it
      was absent or controlled by the policy. */
  lemma TouchesOnlyOwn<S>(objects: Objects<S>, wnp: Policy, want: Desired<S>, calls: Calls)
    ensures var after := Reconciled(objects, wnp, want, calls).objects;
            && (forall k :: k != wnp.key ==> Current(after, k) == Current(objects, k))
            && (after != objects ==> wnp.key !in objects || ControlledBy(objects[wnp.key].ownerRefs, wnp.uid))
  {
  }

  ghost predicate SettledUnlessError<S>(
    before: Objects<S>, wnp: Policy, want: Desired<S>, calls: Calls, r: Outcome<S>)
  {
    && (r.error.None? ==> Settled(r.objects, wnp, want))
    && (r.error.Some? ==> r.objects == before || (calls.write.AnswerLost? && Settled(r.objects, wnp, want)))
  }

  lemma UpsertSettles<S>(objects: Objects<S>, wnp: Policy, want: Desired<S>, calls: Calls)
    requires want.Present?
    ensures SettledUnlessError(objects, wnp, want, calls, Upserted(objects, wnp, want, calls))
  {
    if Render(wnp, Current(objects, wnp.key), want).Some? {
      RenderMatches(wnp, Current(objects, wnp.key), want);
    }
  }

  /** Success settles the object; a failure leaves it as it was, or settles it when only
      the answer was lost. */
  lemma SuccessSettles<S>(objects: Objects<S>, wnp: Policy, want: Desired<S>, calls: Calls)
    ensures SettledUnlessError(objects, wnp, want, calls, Reconciled(objects, wnp, want, calls))
  {
    if want.Present? {
      UpsertSettles(objects, wnp, want, calls);
    }
  }

  /** A settled object is left alone, whatever the calls do. */
  lemma SettledStays<S>(objects: Objects<S>, wnp: Policy, want: Desired<S>, calls: Calls)
    requires Settled(objects, wnp, want)
    ensures Reconciled(objects, wnp, want, calls).objects == objects
  {
    if want.Present? {
      RenderSettled(wnp, objects[wnp.key], want);
    }
  }

  /** The error of a reconciliation, exactly. Kubernetes and Istio alike: a failed Get; a foreign
      object; then, for a deletion, a failed write of an existing object; otherwise a failed
      re-read, a controller that cannot be replaced, or a failed write of a changed object. */
  lemma ErrorIff<S>(objects: Objects<S>, wnp: Policy, want: Desired<S>, calls: Calls)
    ensures var error, current := Reconciled(objects, wnp, want, calls).error, Current(objects, wnp.key);
            var foreign := current.Some? && !ControlledBy(current.value.ownerRefs, wnp.uid);
            && (error == Some("PolicyOwnershipConflict") <==> calls.getOk && foreign)
            && (error.None? <==>
                && calls.getOk && !foreign
                && (want.Absent? ==> current.None? || calls.write.Done?)
                && (want.Present? ==>
                      && calls.rereadOk && Render(wnp, current, want).Some?
                      && (Settled(objects, wnp, want) || calls.write.Done?)))
  {
    if want.Present? && Render(wnp, Current(objects, wnp.key), want).Some? {
      RenderMatches(wnp, Current(objects, wnp.key), want);
      if Settled(objects, wnp, want) {
        RenderSettled(wnp, objects[wnp.key], want);
      }
    }
  }

  /** An object without owners, or controlled by the policy under its own name, can be rendered. */
  lemma RenderSucceeds<S>(wnp: Policy, current: Option<Object<S>>, want: Desired<S>)
    requires want.Present?
    requires current.Some? && ControllerOf(current.value.ownerRefs).Some? ==>
               SameObject(ControllerOf(current.value.ownerRefs).value, ControllerRef(wnp))
    ensures Render(wnp, current, want).Some?
  {
  }

  /** When the calls succeed and the name is free, or holds an object the policy controls under
      its own name, the reconciliation succeeds and leaves what the policy asks for. */
  lemma OwnReconciles<S>(objects: Objects<S>, wnp: Policy, want: Desired<S>, calls: Calls)
    requires calls == Calls(true, true, Done)
    requires wnp.key in objects ==>
               var c := ControllerOf(objects[wnp.key].ownerRefs);
               c.Some? && c.value.uid == wnp.uid && SameObject(c.value, ControllerRef(wnp))
    ensures var r := Reconciled(objects, wnp, want, calls); r.error.None? && Settled(r.objects, wnp, want)
  {
    if want.Present? {
      RenderSucceeds(wnp, Current(objects, wnp.key), want);
    }
    ErrorIff(objects, wnp, want, calls);
    SuccessSettles(objects, wnp, want, calls);
  }

  /** Two references are to the same object exactly when group, kind and name agree. */
  lemma SameObjectIff(group: string, v: string, w: string, a: OwnerRef, b: OwnerRef)
    requires '/' !in group && '/' !in v && '/' !in w && group != ""
    requires a.apiVersion == group + "/" + v && b.apiVersion == group + "/" + w
    ensures SameObject(a, b) <==> a.kind == b.kind && a.name == b.name
  {
    GroupOfPair(group, v);
    GroupOfPair(group, w);
  }
}
