/** EqualUnordered (api/v1alpha1/policy_helpers.go): greedy order-independent
    comparison of two slices, and why greed loses nothing when the element
    comparison is an equivalence. */
module Unordered {

  ghost predicate Equivalence<T(!new)>(eq: (T, T) -> bool) {
    && (forall x :: eq(x, x))
    && (forall x, y :: eq(x, y) ==> eq(y, x))
    && (forall x, y, z :: eq(x, y) && eq(y, z) ==> eq(x, z))
  }

  // ----- the code: a recursive form and the loop over the `free` slice -----

  /** First index at or after j that is free and equal to l, or -1. */
  function FirstFree<T>(l: T, right: seq<T>, free: seq<bool>, eq: (T, T) -> bool, j: nat): (m: int)
    requires |free| == |right| && j <= |right|
    ensures m == -1 || (j <= m < |right| && free[m] && eq(l, right[m]))
    ensures forall k :: j <= k < (if m == -1 then |right| else m) ==> !(free[k] && eq(l, right[k]))
    decreases |right| - j
  {
    if j == |right| then -1
    else if free[j] && eq(l, right[j]) then j
    else FirstFree(l, right, free, eq, j + 1)
  }

  predicate Greedy<T>(left: seq<T>, right: seq<T>, free: seq<bool>, eq: (T, T) -> bool)
    requires |free| == |right|
  {
    left == [] ||
    var m := FirstFree(left[0], right, free, eq, 0);
    m >= 0 && Greedy(left[1..], right, free[m := false], eq)
  }

  function AllFree(n: nat): seq<bool> { seq(n, _ => true) }

  predicate EqualUnordered<T>(left: seq<T>, right: seq<T>, eq: (T, T) -> bool) {
    |left| == |right| && Greedy(left, right, AllFree(|right|), eq)
  }

  method EqualUnorderedLoop<T>(left: seq<T>, right: seq<T>, eq: (T, T) -> bool) returns (r: bool)
    ensures r == EqualUnordered(left, right, eq)
  {
    if |left| != |right| {
      return false;
    }
    var free := new bool[|right|](_ => true);
    assert free[..] == AllFree(|right|);
    for i := 0 to |left|
      invariant EqualUnordered(left, right, eq) == Greedy(left[i..], right, free[..], eq)
    {
      assert left[i..][0] == left[i] && left[i..][1..] == left[i + 1..];
      var match_ := -1;
      var j := 0;
      while j < |right| && match_ < 0
        invariant 0 <= j <= |right|
        invariant FirstFree(left[i], right, free[..], eq, 0) ==
                  if match_ >= 0 then match_ else FirstFree(left[i], right, free[..], eq, j)
        invariant -1 <= match_ < |right|
        decreases |right| - j, match_ < 0
      {
        if free[j] && eq(left[i], right[j]) {
          match_ := j;
        } else {
          j := j + 1;
        }
      }
      if match_ < 0 {
        return false;
      }
      ghost var before := free[..];
      free[match_] := false;
      assert free[..] == before[match_ := false];
    }
    return true;
  }

  // ----- the reference: a bijection that pairs equal elements -----

  ghost predicate Injective(p: seq<nat>) {
    forall i, j :: 0 <= i < j < |p| ==> p[i] != p[j]
  }

  /** p sends each left element to a distinct free equal right element. */
  ghost predicate Assignment<T>(left: seq<T>, right: seq<T>, free: seq<bool>, eq: (T, T) -> bool, p: seq<nat>)
    requires |free| == |right|
  {
    && |p| == |left|
    && Injective(p)
    && forall i :: 0 <= i < |p| ==> p[i] < |right| && free[p[i]] && eq(left[i], right[p[i]])
  }

  ghost predicate Bijection<T>(left: seq<T>, right: seq<T>, eq: (T, T) -> bool, p: seq<nat>) {
    && |p| == |left| == |right|
    && Injective(p)
    && forall i :: 0 <= i < |p| ==> p[i] < |right| && eq(left[i], right[p[i]])
  }

  ghost predicate Matchable<T>(left: seq<T>, right: seq<T>, eq: (T, T) -> bool) {
    exists p :: Bijection(left, right, eq, p)
  }

  /** What the greedy search found is an assignment, whatever eq is. */
  lemma {:induction false} GreedySound<T>(left: seq<T>, right: seq<T>, free: seq<bool>, eq: (T, T) -> bool)
    returns (p: seq<nat>)
    requires |free| == |right| && Greedy(left, right, free, eq)
    ensures Assignment(left, right, free, eq, p)
  {
    if left == [] {
      p := [];
    } else {
      var m := FirstFree(left[0], right, free, eq, 0);
      var rest := GreedySound(left[1..], right, free[m := false], eq);
      p := [m] + rest;
    }
  }

  /** Exchange argument: the greedy choice m can be swapped into any assignment,
      because whoever used m can take over left[0]'s old partner. */
  lemma {:induction false} GreedyComplete<T(!new)>(
    left: seq<T>, right: seq<T>, free: seq<bool>, eq: (T, T) -> bool, p: seq<nat>)
    requires Equivalence(eq)
    requires |free| == |right| && Assignment(left, right, free, eq, p)
    ensures Greedy(left, right, free, eq)
  {
    if left != [] {
      var m := FirstFree(left[0], right, free, eq, 0);
      assert free[p[0]] && eq(left[0], right[p[0]]);
      var rest := p[1..];
      if k :| 0 <= k < |rest| && rest[k] == m {
        assert p[k + 1] == m && p[0] != m;
        assert eq(left[1..][k], right[m]);
        rest := rest[k := p[0]];
        assert forall i :: 0 <= i < |rest| && i != k ==> rest[i] == p[i + 1];
      } else {
        assert forall i :: 0 <= i < |rest| ==> rest[i] == p[i + 1];
      }
      GreedyComplete(left[1..], right, free[m := false], eq, rest);
    }
  }

  /** Greedy matching is complete: for an equivalence, the code answers true
      exactly when a bijection between the two slices exists. */
  lemma EqualUnorderedIffMatchable<T(!new)>(left: seq<T>, right: seq<T>, eq: (T, T) -> bool)
    requires Equivalence(eq)
    ensures EqualUnordered(left, right, eq) <==> Matchable(left, right, eq)
  {
    var free := AllFree(|right|);
    if EqualUnordered(left, right, eq) {
      var p := GreedySound(left, right, free, eq);
      assert Bijection(left, right, eq, p);
    }
    if Matchable(left, right, eq) {
      var p :| Bijection(left, right, eq, p);
      GreedyComplete(left, right, free, eq, p);
    }
  }

  /** Without symmetry and transitivity greed can lose: the first left element
      takes the only partner of the second. */
  lemma GreedyIncompleteWithoutEquivalence()
    ensures exists left: seq<int>, right: seq<int>, eq: (int, int) -> bool ::
              Matchable(left, right, eq) && !EqualUnordered(left, right, eq)
  {
    var eq := (x: int, y: int) => x == 1 || y == 3;
    var left, right := [1, 2], [3, 4];
    assert Bijection(left, right, eq, [1, 0]);
    var free := AllFree(2);
    assert FirstFree(1, right, free, eq, 0) == 0;
    var rest := free[0 := false];
    assert left[1..] == [2];
    assert FirstFree(2, right, rest, eq, 0) == -1;
    assert !Greedy([2], right, rest, eq);
    assert !Greedy(left, right, free, eq);
    assert Matchable(left, right, eq) && !EqualUnordered(left, right, eq);
  }

  // ----- Matchable is an equivalence -----

  lemma {:induction false} InjectiveCard(p: seq<nat>, k: nat)
    requires Injective(p) && k <= |p|
    ensures |set i | 0 <= i < k :: p[i]| == k
  {
    if k > 0 {
      InjectiveCard(p, k - 1);
      assert (set i | 0 <= i < k :: p[i]) == (set i | 0 <= i < k - 1 :: p[i]) + {p[k - 1]};
    }
  }

  ghost function Below(n: nat): (s: set<nat>)
    ensures |s| == n && forall i :: i in s <==> 0 <= i < n
  {
    if n == 0 then {} else Below(n - 1) + {n - 1}
  }

  lemma SubsetSameCard<T>(a: set<T>, b: set<T>)
    requires a <= b && |a| == |b|
    ensures a == b
  {
    if x :| x in b && x !in a {
      assert a <= b - {x};
      SubsetCard(a, b - {x});
    }
  }

  lemma {:induction false} SubsetCard<T>(a: set<T>, b: set<T>)
    requires a <= b
    ensures |a| <= |b|
  {
    if a != {} {
      var x :| x in a;
      SubsetCard(a - {x}, b - {x});
    }
  }

  /** Pigeonhole: an injective list of n numbers below n hits every one. */
  lemma Surjective(p: seq<nat>)
    requires Injective(p) && forall i :: 0 <= i < |p| ==> p[i] < |p|
    ensures forall j :: 0 <= j < |p| ==> j in p
  {
    var image := set i | 0 <= i < |p| :: p[i];
    InjectiveCard(p, |p|);
    SubsetSameCard(image, Below(|p|));
    forall j | 0 <= j < |p|
      ensures j in p
    {
      assert j in image;
    }
  }

  ghost function IndexOf(p: seq<nat>, j: nat): (i: nat)
    requires j in p
    ensures i < |p| && p[i] == j
  {
    var i: nat :| i < |p| && p[i] == j;
    i
  }

  lemma MatchableSymmetric<T(!new)>(left: seq<T>, right: seq<T>, eq: (T, T) -> bool)
    requires Equivalence(eq) && Matchable(left, right, eq)
    ensures Matchable(right, left, eq)
  {
    var p :| Bijection(left, right, eq, p);
    Surjective(p);
    var q := seq(|p|, j requires 0 <= j < |p| => IndexOf(p, j));
    assert forall j :: 0 <= j < |q| ==> p[q[j]] == j;
    assert Bijection(right, left, eq, q);
  }

  lemma MatchableTransitive<T(!new)>(a: seq<T>, b: seq<T>, c: seq<T>, eq: (T, T) -> bool)
    requires Equivalence(eq) && Matchable(a, b, eq) && Matchable(b, c, eq)
    ensures Matchable(a, c, eq)
  {
    var p :| Bijection(a, b, eq, p);
    var q :| Bijection(b, c, eq, q);
    var r := seq(|p|, i requires 0 <= i < |p| => q[p[i]]);
    forall i, j | 0 <= i < j < |r|
      ensures r[i] != r[j]
    {
      assert p[i] != p[j];
    }
    forall i | 0 <= i < |r|
      ensures eq(a[i], c[r[i]])
    {
      assert eq(a[i], b[p[i]]) && eq(b[p[i]], c[q[p[i]]]);
    }
    assert Bijection(a, c, eq, r);
  }

  lemma MatchableReflexive<T(!new)>(s: seq<T>, eq: (T, T) -> bool)
    requires Equivalence(eq)
    ensures Matchable(s, s, eq)
  {
    assert Bijection(s, s, eq, seq(|s|, i => i));
  }

  /** EqualUnordered lifts an equivalence on elements to one on slices. */
  lemma EqualUnorderedIsEquivalence<T(!new)>(eq: (T, T) -> bool)
    requires Equivalence(eq)
    ensures Equivalence((a: seq<T>, b: seq<T>) => EqualUnordered(a, b, eq))
  {
    forall a: seq<T>, b: seq<T>
      ensures EqualUnordered(a, b, eq) <==> Matchable(a, b, eq)
    {
      EqualUnorderedIffMatchable(a, b, eq);
    }
    forall a: seq<T>
      ensures Matchable(a, a, eq)
    {
      MatchableReflexive(a, eq);
    }
    forall a: seq<T>, b: seq<T> | Matchable(a, b, eq)
      ensures Matchable(b, a, eq)
    {
      MatchableSymmetric(a, b, eq);
    }
    forall a: seq<T>, b: seq<T>, c: seq<T> | Matchable(a, b, eq) && Matchable(b, c, eq)
      ensures Matchable(a, c, eq)
    {
      MatchableTransitive(a, b, c, eq);
    }
  }

  /** A comparison of two projections by equivalences is an equivalence. */
  lemma ProductIsEquivalence<T(!new), A(!new), B(!new)>(
    eq: (T, T) -> bool, f: T -> A, eqA: (A, A) -> bool, g: T -> B, eqB: (B, B) -> bool)
    requires Equivalence(eqA) && Equivalence(eqB)
    requires forall x, y :: eq(x, y) <==> eqA(f(x), f(y)) && eqB(g(x), g(y))
    ensures Equivalence(eq)
  {
  }

  // ----- with equality, a permutation -----

  /** The free elements among the first n. */
  ghost function FreeTo<T>(right: seq<T>, free: seq<bool>, n: nat): multiset<T>
    requires n <= |right| == |free|
  {
    if n == 0 then multiset{}
    else FreeTo(right, free, n - 1) + if free[n - 1] then multiset{right[n - 1]} else multiset{}
  }

  lemma {:induction false} FreeToMember<T>(right: seq<T>, free: seq<bool>, n: nat, x: T)
    requires n <= |right| == |free|
    ensures x in FreeTo(right, free, n) <==> exists j :: 0 <= j < n && free[j] && right[j] == x
  {
    if n > 0 {
      FreeToMember(right, free, n - 1, x);
    }
  }

  lemma {:induction false} FreeToTake<T>(right: seq<T>, free: seq<bool>, n: nat, m: nat)
    requires n <= |right| == |free| && m < |right| && free[m]
    ensures FreeTo(right, free, n) ==
            FreeTo(right, free[m := false], n) + if m < n then multiset{right[m]} else multiset{}
  {
    if n > 0 {
      FreeToTake(right, free, n - 1, m);
    }
  }

  lemma {:induction false} FreeToAll<T>(right: seq<T>, free: seq<bool>, n: nat)
    requires n <= |right| == |free| && forall j :: 0 <= j < n ==> free[j]
    ensures FreeTo(right, free, n) == multiset(right[..n])
  {
    if n > 0 {
      FreeToAll(right, free, n - 1);
      assert right[..n] == right[..n - 1] + [right[n - 1]];
    }
  }

  lemma ContainedCancel<T(!new)>(a: multiset<T>, b: multiset<T>, x: T)
    ensures multiset{x} + a <= b + multiset{x} <==> a <= b
  {
    if multiset{x} + a <= b + multiset{x} {
      forall y ensures a[y] <= b[y] { assert (multiset{x} + a)[y] <= (b + multiset{x})[y]; }
    }
  }

  lemma {:induction false} GreedyIffContained<T(!new)>(
    left: seq<T>, right: seq<T>, free: seq<bool>, eq: (T, T) -> bool)
    requires |free| == |right| && forall x, y :: eq(x, y) <==> x == y
    ensures Greedy(left, right, free, eq) <==> multiset(left) <= FreeTo(right, free, |right|)
  {
    if left != [] {
      var m := FirstFree(left[0], right, free, eq, 0);
      var all := FreeTo(right, free, |right|);
      assert left == [left[0]] + left[1..];
      assert multiset(left) == multiset{left[0]} + multiset(left[1..]);
      FreeToMember(right, free, |right|, left[0]);
      if m >= 0 {
        FreeToTake(right, free, |right|, m);
        GreedyIffContained(left[1..], right, free[m := false], eq);
        ContainedCancel(multiset(left[1..]), FreeTo(right, free[m := false], |right|), left[0]);
      } else {
        assert left[0] in multiset(left);
      }
    }
  }

  /** With equality of elements, unordered comparison is equality as multisets. */
  lemma EqualUnorderedIsPermutation<T(!new)>(left: seq<T>, right: seq<T>, eq: (T, T) -> bool)
    requires forall x, y :: eq(x, y) <==> x == y
    ensures EqualUnordered(left, right, eq) <==> multiset(left) == multiset(right)
  {
    GreedyIffContained(left, right, AllFree(|right|), eq);
    FreeToAll(right, AllFree(|right|), |right|);
    assert right[..|right|] == right;
    if |left| == |right| && multiset(left) <= multiset(right) {
      assert |multiset(right) - multiset(left)| == 0;
    }
    if multiset(left) == multiset(right) {
      assert |multiset(left)| == |multiset(right)|;
    }
  }
}
