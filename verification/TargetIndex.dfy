/** The (targetRef, direction) field index over WorkloadNetworkPolicies
    (internal/workload/target_index.go). */
module TargetIndex {
  import opened Api

  type PolicyMap = map<NamespacedName, Policy>

  function TargetIndexKey(kind: string, name: string, direction: string): string {
    kind + "/" + name + "/" + direction
  }

  /** Only the outer two parts must be free of slashes; the name may hold them. */
  lemma TargetIndexKeyInjective(k1: string, n1: string, d1: string, k2: string, n2: string, d2: string)
    requires '/' !in k1 && '/' !in k2 && '/' !in d1 && '/' !in d2
    requires TargetIndexKey(k1, n1, d1) == TargetIndexKey(k2, n2, d2)
    ensures k1 == k2 && n1 == n2 && d1 == d2
  {
    var s := TargetIndexKey(k1, n1, d1);
    assert s[|k1|] == '/' && s[|k2|] == '/';
    assert s[..|k1|] == k1 && s[..|k2|] == k2;
    var i1, i2 := |s| - |d1| - 1, |s| - |d2| - 1;
    assert s[i1] == '/' && s[i2] == '/';
    assert s[i1 + 1..] == d1 && s[i2 + 1..] == d2;
    assert n1 == s[|k1| + 1..i1] && n2 == s[|k2| + 1..i2];
  }

  /** IndexWNPByTarget: the policy's index value, if its target is complete. */
  function IndexedTarget(spec: PolicySpec): Option<string> {
    if spec.targetRef.kind == "" || spec.targetRef.name == "" || spec.direction == "" then None
    else Some(TargetIndexKey(spec.targetRef.kind, spec.targetRef.name, spec.direction))
  }

  /** A policy is indexed exactly when kind, name and direction are all set. */
  lemma IndexedIff(spec: PolicySpec)
    ensures IndexedTarget(spec).Some? <==> "" !in [spec.targetRef.kind, spec.targetRef.name, spec.direction]
  {
    var parts := [spec.targetRef.kind, spec.targetRef.name, spec.direction];
    assert parts[0] in parts && parts[1] in parts && parts[2] in parts;
  }

  /** The result of List with InNamespace and MatchingFields on the index. */
  function ListByIndex(cache: PolicyMap, namespace: string, key: string): set<NamespacedName> {
    set k | k in cache && k.namespace == namespace && IndexedTarget(cache[k].spec) == Some(key)
  }

  /** The tuple meaning of the index. */
  ghost predicate Targets(p: Policy, kind: string, name: string, direction: string) {
    p.spec.targetRef == TargetRef(kind, name) && p.spec.direction == direction
  }

  ghost function ListByTarget(cache: PolicyMap, namespace: string, kind: string, name: string, direction: string):
    set<NamespacedName>
  {
    set k | k in cache && k.namespace == namespace && Targets(cache[k], kind, name, direction)
  }

  /** Every policy of the cache satisfies the CRD schema. */
  ghost predicate SchemaValid(cache: PolicyMap) {
    forall k :: k in cache ==> cache[k].key == k && TargetPopulated(cache[k].spec)
  }

  lemma IndexedIffTargets(p: Policy, kind: string, name: string, direction: string)
    requires TargetPopulated(p.spec) && Learnable(kind, name, direction)
    ensures IndexedTarget(p.spec) == Some(TargetIndexKey(kind, name, direction)) <==> Targets(p, kind, name, direction)
  {
    var ref := p.spec.targetRef;
    if IndexedTarget(p.spec) == Some(TargetIndexKey(kind, name, direction)) {
      TargetIndexKeyInjective(ref.kind, ref.name, p.spec.direction, kind, name, direction);
    }
  }

  /** On schema-valid caches the string index answers the tuple question. */
  lemma IndexEqualsTuple(cache: PolicyMap, namespace: string, kind: string, name: string, direction: string)
    requires SchemaValid(cache) && Learnable(kind, name, direction)
    ensures ListByIndex(cache, namespace, TargetIndexKey(kind, name, direction)) ==
            ListByTarget(cache, namespace, kind, name, direction)
  {
    forall k | k in cache
      ensures IndexedTarget(cache[k].spec) == Some(TargetIndexKey(kind, name, direction)) <==>
              Targets(cache[k], kind, name, direction)
    {
      IndexedIffTargets(cache[k], kind, name, direction);
    }
  }

  datatype LookupResult = Found(key: NamespacedName) | TargetNotFound | DuplicateTarget | ListFailed

  lemma OnlyElement(s: set<NamespacedName>, x: NamespacedName, y: NamespacedName)
    requires |s| == 1 && x in s && y in s
    ensures x == y
  {
    assert |s - {x}| == 0;
  }

  /** LookupWNPByTarget: a branch on the number of matches. `listOk` is the outcome
      of the List call. */
  function LookupByTarget(
    cache: PolicyMap, listOk: bool, namespace: string, kind: string, name: string, direction: string): LookupResult
  {
    var items := ListByIndex(cache, namespace, TargetIndexKey(kind, name, direction));
    if !listOk then ListFailed
    else if |items| == 0 then TargetNotFound
    else if |items| == 1 then
      assert forall x, y :: x in items && y in items ==> x == y by {
        forall x, y | x in items && y in items { OnlyElement(items, x, y); }
      }
      var k :| k in items;
      Found(k)
    else DuplicateTarget
  }
}
