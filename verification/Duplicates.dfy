/** The one policy of a duplicate group that may render an object
    (internal/controller/workloadnetworkpolicy_duplicate_target.go). */
module Duplicates {
  import opened Api
  import opened Text
  import opened TargetIndex

  /** The comparator of oldestWorkloadNetworkPolicy: by creation time, then by name. */
  predicate Older(a: Policy, b: Policy) {
    a.creationTimestamp < b.creationTimestamp ||
    (a.creationTimestamp == b.creationTimestamp && StringLess(a.key.name, b.key.name))
  }

  lemma OlderTotal(a: Policy, b: Policy)
    ensures Older(a, b) || Older(b, a) || a.key.name == b.key.name
    ensures !(Older(a, b) && Older(b, a))
  {
    StringLessTotal(a.key.name, b.key.name);
  }

  lemma OlderTransitive(a: Policy, b: Policy, c: Policy)
    requires !Older(b, a) && !Older(c, b)
    ensures !Older(c, a)
  {
    StringLessTotal(a.key.name, b.key.name);
    StringLessTotal(b.key.name, c.key.name);
    StringLessTotal(c.key.name, a.key.name);
    if StringLess(a.key.name, b.key.name) && StringLess(b.key.name, c.key.name) {
      StringLessTransitive(a.key.name, b.key.name, c.key.name);
    }
  }

  lemma NotOlder(p: Policy, q: Policy)
    requires !Older(p, q)
    ensures q.creationTimestamp <= p.creationTimestamp
    ensures p.creationTimestamp == q.creationTimestamp ==>
              p.key.name == q.key.name || StringLess(q.key.name, p.key.name)
  {
    StringLessTotal(p.key.name, q.key.name);
  }

  /** oldestWorkloadNetworkPolicy (slices.MinFunc). */
  method OldestWorkloadNetworkPolicy(policies: seq<Policy>) returns (oldest: Policy)
    requires policies != []
    ensures oldest in policies && forall p :: p in policies ==> !Older(p, oldest)
    ensures forall p :: p in policies ==> oldest.creationTimestamp <= p.creationTimestamp
    ensures forall p :: p in policies && p.creationTimestamp == oldest.creationTimestamp ==>
                          p.key.name == oldest.key.name || StringLess(oldest.key.name, p.key.name)
  {
    forall p, q | !Older(p, q)
      ensures q.creationTimestamp <= p.creationTimestamp
      ensures p.creationTimestamp == q.creationTimestamp ==>
                p.key.name == q.key.name || StringLess(q.key.name, p.key.name)
    {
      NotOlder(p, q);
    }
    oldest := policies[0];
    OlderTotal(oldest, oldest);
    for i := 1 to |policies|
      invariant oldest in policies
      invariant forall j :: 0 <= j < i ==> !Older(policies[j], oldest)
    {
      var p := policies[i];
      OlderTotal(p, oldest);
      OlderTotal(p, p);
      if Older(p, oldest) {
        forall j | 0 <= j < i
          ensures !Older(policies[j], p)
        {
          OlderTransitive(p, oldest, policies[j]);
        }
        oldest := p;
      }
    }
  }

  ghost predicate Keyed(policies: PolicyMap) {
    forall k :: k in policies ==> policies[k].key == k
  }

  /** k is the oldest policy of the group: created before every other, or at the same time and
      first by name. */
  ghost predicate IsOldest(policies: PolicyMap, group: set<NamespacedName>, k: NamespacedName)
    requires group <= policies.Keys
  {
    && k in group
    && forall j :: j in group && j != k ==>
                     || policies[k].creationTimestamp < policies[j].creationTimestamp
                     || (policies[k].creationTimestamp == policies[j].creationTimestamp &&
                         StringLess(policies[k].key.name, policies[j].key.name))
  }

  ghost predicate SameNamespace(group: set<NamespacedName>, namespace: string) {
    forall k :: k in group ==> k.namespace == namespace
  }

  /** At most one policy of a group is its oldest. */
  lemma OldestUnique(policies: PolicyMap, group: set<NamespacedName>, j: NamespacedName, k: NamespacedName)
    requires group <= policies.Keys && IsOldest(policies, group, j) && IsOldest(policies, group, k)
    ensures j == k
  {
    if j != k {
      OlderTotal(policies[j], policies[k]);
    }
  }

  /** Every enumeration of a group gives the same winner, the group's oldest policy. */
  lemma MinimumIsOldest(
    policies: PolicyMap, group: set<NamespacedName>, namespace: string, items: seq<Policy>, min: Policy)
    requires Keyed(policies) && group <= policies.Keys && SameNamespace(group, namespace)
    requires forall p :: p in items <==> p.key in group && p == policies[p.key]
    requires min in items && forall p :: p in items ==> !Older(p, min)
    ensures IsOldest(policies, group, min.key)
  {
    forall j | j in group && j != min.key
      ensures Older(policies[min.key], policies[j])
    {
      assert policies[j] in items;
      assert j.name != min.key.name;
      OlderTotal(policies[j], min);
    }
  }

  datatype Conflict = NoConflict | Unlisted | DuplicateOf(winner: bool)

  /** What the reconciled policy learns about its group. */
  ghost function ConflictOf(policies: PolicyMap, listOk: bool, wnp: Policy): Conflict {
    var target := IndexedTarget(wnp.spec);
    if target.None? then NoConflict
    else if !listOk then Unlisted
    else
      var group := ListByIndex(policies, wnp.key.namespace, target.value);
      if |group| < 2 then NoConflict else DuplicateOf(IsOldest(policies, group, wnp.key))
  }

  /** checkDuplicateTarget. `list` is the answer of the List call, in the order it came. */
  method CheckDuplicateTarget(policies: PolicyMap, listOk: bool, list: seq<Policy>, wnp: Policy) returns (r: Conflict)
    requires Keyed(policies) && wnp.key in policies
    requires IndexedTarget(wnp.spec).Some? ==>
               var group := ListByIndex(policies, wnp.key.namespace, IndexedTarget(wnp.spec).value);
               |list| == |group| && forall p :: p in list <==> p.key in group && p == policies[p.key]
    ensures r == ConflictOf(policies, listOk, wnp)
  {
    var target := IndexedTarget(wnp.spec);
    if target.None? {
      return NoConflict;
    }
    if !listOk {
      return Unlisted;
    }
    if |list| < 2 {
      return NoConflict;
    }
    var oldest := OldestWorkloadNetworkPolicy(list);
    ghost var group := ListByIndex(policies, wnp.key.namespace, target.value);
    MinimumIsOldest(policies, group, wnp.key.namespace, list, oldest);
    if IsOldest(policies, group, wnp.key) {
      OldestUnique(policies, group, wnp.key, oldest.key);
    }
    r := DuplicateOf(oldest.key.name == wnp.key.name);
  }

  /** All members of a group agree on the winner: exactly one of them is told it may render. */
  lemma OneWinner(policies: PolicyMap, namespace: string, target: string)
    requires Keyed(policies) && |ListByIndex(policies, namespace, target)| >= 2
    ensures exists k :: k in ListByIndex(policies, namespace, target) &&
                        forall j :: j in ListByIndex(policies, namespace, target) ==>
                                      ConflictOf(policies, true, policies[j]) == DuplicateOf(j == k)
  {
    var group := ListByIndex(policies, namespace, target);
    var k := OldestOf(policies, group, namespace);
    forall j | j in group
      ensures ConflictOf(policies, true, policies[j]) == DuplicateOf(j == k)
    {
      if IsOldest(policies, group, j) {
        OldestUnique(policies, group, j, k);
      }
    }
  }

  lemma {:induction false} OldestOf(policies: PolicyMap, group: set<NamespacedName>, namespace: string)
    returns (k: NamespacedName)
    requires Keyed(policies) && group != {} && group <= policies.Keys && SameNamespace(group, namespace)
    ensures IsOldest(policies, group, k)
    decreases |group|
  {
    var j :| j in group;
    assert forall i :: i in group && i != j ==> i in group - {j};
    if group - {j} == {} {
      return j;
    }
    var rest := OldestOf(policies, group - {j}, namespace);
    assert j.name != rest.name;
    OlderTotal(policies[j], policies[rest]);
    k := if Older(policies[j], policies[rest]) then j else rest;
    forall i | i in group && i != k
      ensures Older(policies[k], policies[i])
    {
      if k == j && i != rest {
        assert Older(policies[rest], policies[i]);
        OlderTotal(policies[i], policies[rest]);
        OlderTotal(policies[rest], policies[j]);
        OlderTransitive(policies[j], policies[rest], policies[i]);
        OlderTotal(policies[i], policies[j]);
      }
    }
  }

  // ----- requeueing -----

  /** The other policies that share the policy's (targetRef, direction). */
  ghost function Rivals(policies: PolicyMap, wnp: Policy): set<NamespacedName> {
    var target := IndexedTarget(wnp.spec);
    if target.None? then {} else ListByIndex(policies, wnp.key.namespace, target.value) - {wnp.key}
  }

  /** duplicateTargetPolicies; `list` is the answer of the List call. */
  method DuplicateTargetPolicies(policies: PolicyMap, listOk: bool, list: seq<Policy>, wnp: Policy)
    returns (requests: seq<NamespacedName>)
    requires Keyed(policies)
    requires IndexedTarget(wnp.spec).Some? ==>
               var group := ListByIndex(policies, wnp.key.namespace, IndexedTarget(wnp.spec).value);
               forall p :: p in list <==> p.key in group && p == policies[p.key]
    ensures forall k :: k in requests <==> listOk && k in Rivals(policies, wnp)
  {
    requests := [];
    var target := IndexedTarget(wnp.spec);
    if target.None? || !listOk {
      return;
    }
    for i := 0 to |list|
      invariant forall k :: k in requests <==> exists j :: 0 <= j < i && list[j].key == k && k.name != wnp.key.name
    {
      if list[i].key.name != wnp.key.name {
        requests := requests + [list[i].key];
      }
    }
    forall k | k in Rivals(policies, wnp)
      ensures k in requests
    {
      assert policies[k] in list;
    }
  }

  ghost predicate ChangedOnlyAt(before: PolicyMap, after: PolicyMap, k: NamespacedName) {
    forall i :: i != k ==> (i in before <==> i in after) && (i in before ==> before[i] == after[i])
  }

  lemma UnaffectedConflict(before: PolicyMap, after: PolicyMap, k: NamespacedName, j: NamespacedName)
    requires Keyed(before) && Keyed(after) && ChangedOnlyAt(before, after, k) && j != k && j in after
    requires k in before ==> j !in Rivals(after, before[k])
    requires k in after ==> j !in Rivals(after, after[k])
    ensures ConflictOf(before, true, before[j]) == ConflictOf(after, true, after[j])
  {
    var target := IndexedTarget(after[j].spec);
    if target.Some? {
      assert j in ListByIndex(after, j.namespace, target.value);
      assert ListByIndex(before, j.namespace, target.value) == ListByIndex(after, j.namespace, target.value);
    }
  }

  /** No member keeps a stale winner: when one policy is created, changed or deleted, every
      other policy whose view of its group changes is requeued for the old or the new object. */
  lemma RequeueComplete(before: PolicyMap, after: PolicyMap, k: NamespacedName, j: NamespacedName)
    requires Keyed(before) && Keyed(after) && ChangedOnlyAt(before, after, k) && j != k && j in after
    requires ConflictOf(before, true, before[j]) != ConflictOf(after, true, after[j])
    ensures (k in before && j in Rivals(after, before[k])) || (k in after && j in Rivals(after, after[k]))
  {
    if (k in before ==> j !in Rivals(after, before[k])) && (k in after ==> j !in Rivals(after, after[k])) {
      UnaffectedConflict(before, after, k, j);
    }
  }
}
