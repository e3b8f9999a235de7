/** The condition list of a status, and apiMeta.SetStatusCondition on it. */
module Conditions {
  import opened Api
  import opened Seqs

  const READY := "Ready"

  /** Index of the first condition of the type at or after i, or the length. */
  function IndexOf(conditions: seq<Condition>, conditionType: string, i: nat): (k: nat)
    requires i <= |conditions|
    ensures i <= k <= |conditions|
    ensures k < |conditions| ==> conditions[k].conditionType == conditionType
    ensures forall j :: i <= j < k ==> conditions[j].conditionType != conditionType
    decreases |conditions| - i
  {
    if i == |conditions| || conditions[i].conditionType == conditionType then i
    else IndexOf(conditions, conditionType, i + 1)
  }

  /** apiMeta.FindStatusCondition */
  function FindStatusCondition(conditions: seq<Condition>, conditionType: string): Option<Condition> {
    var k := IndexOf(conditions, conditionType, 0);
    if k == |conditions| then None else Some(conditions[k])
  }

  /** apiMeta.SetStatusCondition */
  function SetStatusCondition(conditions: seq<Condition>, c: Condition): seq<Condition> {
    var k := IndexOf(conditions, c.conditionType, 0);
    if k == |conditions| then conditions + [c] else conditions[k := c]
  }

  function OfOtherType(conditionType: string): Condition -> bool {
    (c: Condition) => c.conditionType != conditionType
  }

  /** The conditions of every other type, in order. */
  ghost function Others(conditions: seq<Condition>, conditionType: string): seq<Condition> {
    Filter(conditions, OfOtherType(conditionType))
  }

  lemma IndexOfAt(conditions: seq<Condition>, conditionType: string, k: nat)
    requires k < |conditions| && conditions[k].conditionType == conditionType
    requires forall j :: 0 <= j < k ==> conditions[j].conditionType != conditionType
    ensures IndexOf(conditions, conditionType, 0) == k
  {
    var i := IndexOf(conditions, conditionType, 0);
    assert i <= k;
  }

  lemma {:induction false} FilterToIgnores(a: seq<Condition>, b: seq<Condition>, conditionType: string, n: nat)
    requires n <= |a| && n <= |b|
    requires forall i :: 0 <= i < n ==>
                           a[i] == b[i] || (a[i].conditionType == conditionType == b[i].conditionType)
    ensures FilterTo(a, OfOtherType(conditionType), n) == FilterTo(b, OfOtherType(conditionType), n)
  {
    if n > 0 {
      FilterToIgnores(a, b, conditionType, n - 1);
    }
  }

  /** The condition is the one found afterwards, all conditions of other types stay as they
      were and in order, and a second set replaces the first. */
  lemma SetStatusConditionExact(conditions: seq<Condition>, c: Condition, d: Condition)
    requires d.conditionType == c.conditionType
    ensures var after := SetStatusCondition(conditions, c);
            && FindStatusCondition(after, c.conditionType) == Some(c)
            && Others(after, c.conditionType) == Others(conditions, c.conditionType)
            && SetStatusCondition(after, d) == SetStatusCondition(conditions, d)
  {
    var t := c.conditionType;
    var k, after := IndexOf(conditions, t, 0), SetStatusCondition(conditions, c);
    IndexOfAt(after, t, k);
    FilterToIgnores(conditions, after, t, |conditions|);
  }
}
