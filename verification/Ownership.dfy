/** Controller owner references (metav1.OwnerReference). */
module Ownership {
  import opened Api

  const WNP_GROUP := "networkenforcer.kubewarden.io"
  const WNP_VERSION := "v1alpha1"
  const WNP_API_VERSION := WNP_GROUP + "/" + WNP_VERSION
  const WNP_KIND := "WorkloadNetworkPolicy"

  datatype OwnerRef = OwnerRef(apiVersion: string, kind: string, name: string, uid: string, controller: bool)

  /** metav1.GetControllerOf: the first controller reference at or after i. */
  function ControllerFrom(refs: seq<OwnerRef>, i: nat): (r: Option<OwnerRef>)
    requires i <= |refs|
    ensures r.Some? ==> r.value.controller && r.value in refs[i..]
    decreases |refs| - i
  {
    if i == |refs| then None else if refs[i].controller then Some(refs[i]) else ControllerFrom(refs, i + 1)
  }

  function ControllerOf(refs: seq<OwnerRef>): Option<OwnerRef> { ControllerFrom(refs, 0) }

  /** metav1.IsControlledBy */
  predicate ControlledBy(refs: seq<OwnerRef>, uid: string) {
    ControllerOf(refs).Some? && ControllerOf(refs).value.uid == uid
  }
}
