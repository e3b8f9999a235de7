/** Filtering, mapping and distinctness of sequences. */
module Seqs {

  /** The elements among the first n that satisfy p, in order. */
  function FilterTo<T>(s: seq<T>, p: T -> bool, n: nat): seq<T>
    requires n <= |s|
  {
    if n == 0 then [] else FilterTo(s, p, n - 1) + if p(s[n - 1]) then [s[n - 1]] else []
  }

  function Filter<T>(s: seq<T>, p: T -> bool): seq<T> { FilterTo(s, p, |s|) }

  function Map<T, U>(s: seq<T>, f: T -> U): (r: seq<U>)
    ensures |r| == |s|
    ensures forall i :: 0 <= i < |s| ==> r[i] == f(s[i])
  {
    seq(|s|, i requires 0 <= i < |s| => f(s[i]))
  }

  ghost predicate DistinctBy<T, K>(f: T -> K, s: seq<T>) {
    forall i, j :: 0 <= i < j < |s| ==> f(s[i]) != f(s[j])
  }

  lemma MapSnoc<T, U>(s: seq<T>, x: T, f: T -> U)
    ensures Map(s + [x], f) == Map(s, f) + [f(x)]
  {
  }

  lemma {:induction false} FilterToMember<T>(s: seq<T>, p: T -> bool, n: nat)
    requires n <= |s|
    ensures forall i :: 0 <= i < |FilterTo(s, p, n)| ==> p(FilterTo(s, p, n)[i]) && FilterTo(s, p, n)[i] in s[..n]
    ensures |FilterTo(s, p, n)| <= n
  {
    if n > 0 {
      FilterToMember(s, p, n - 1);
      assert s[..n] == s[..n - 1] + [s[n - 1]];
    }
  }

  lemma FilterMember<T>(s: seq<T>, p: T -> bool)
    ensures forall i :: 0 <= i < |Filter(s, p)| ==> p(Filter(s, p)[i]) && Filter(s, p)[i] in s
    ensures |Filter(s, p)| <= |s|
  {
    FilterToMember(s, p, |s|);
    assert s[..|s|] == s;
  }

  lemma PartitionStep<T>(a: seq<T>, b: seq<T>, s: seq<T>, x: T)
    requires multiset(a) + multiset(b) == multiset(s)
    ensures multiset(a + [x]) + multiset(b) == multiset(s + [x])
    ensures multiset(a) + multiset(b + [x]) == multiset(s + [x])
  {
  }

  lemma {:induction false} FilterToPrefix<T>(s: seq<T>, r: seq<T>, p: T -> bool, n: nat)
    requires n <= |s| && n <= |r| && forall i :: 0 <= i < n ==> s[i] == r[i]
    ensures FilterTo(s, p, n) == FilterTo(r, p, n)
  {
    if n > 0 {
      FilterToPrefix(s, r, p, n - 1);
    }
  }

  lemma FilterSnoc<T>(s: seq<T>, x: T, p: T -> bool)
    ensures Filter(s + [x], p) == if p(x) then Filter(s, p) + [x] else Filter(s, p)
  {
    FilterToPrefix(s + [x], s, p, |s|);
  }

  lemma FilterPartitionStep<T>(init: seq<T>, x: T, p: T -> bool, q: T -> bool)
    requires q(x) == !p(x) && multiset(Filter(init, p)) + multiset(Filter(init, q)) == multiset(init)
    ensures multiset(Filter(init + [x], p)) + multiset(Filter(init + [x], q)) == multiset(init + [x])
  {
    FilterSnoc(init, x, p);
    FilterSnoc(init, x, q);
    PartitionStep(Filter(init, p), Filter(init, q), init, x);
  }

  /** A predicate splits a list into two parts that together are the list. */
  lemma {:induction false} FilterPartition<T>(s: seq<T>, p: T -> bool, q: T -> bool)
    requires forall i :: 0 <= i < |s| ==> q(s[i]) == !p(s[i])
    ensures multiset(Filter(s, p)) + multiset(Filter(s, q)) == multiset(s)
  {
    if s != [] {
      FilterPartition(s[..|s| - 1], p, q);
      FilterPartitionStep(s[..|s| - 1], s[|s| - 1], p, q);
      assert s == s[..|s| - 1] + [s[|s| - 1]];
    }
  }

  lemma FilterSub<T>(s: seq<T>, p: T -> bool)
    ensures multiset(Filter(s, p)) <= multiset(s)
  {
    FilterPartition(s, p, x => !p(x));
  }

  lemma {:induction false} FilterToAll<T>(s: seq<T>, p: T -> bool, n: nat)
    requires n <= |s| && forall i :: 0 <= i < n ==> p(s[i])
    ensures FilterTo(s, p, n) == s[..n]
  {
    if n > 0 {
      FilterToAll(s, p, n - 1);
    }
  }

  lemma FilterAll<T>(s: seq<T>, p: T -> bool)
    requires forall i :: 0 <= i < |s| ==> p(s[i])
    ensures Filter(s, p) == s
  {
    FilterToAll(s, p, |s|);
  }

  lemma {:induction false} FilterToNone<T>(s: seq<T>, p: T -> bool, n: nat)
    requires n <= |s| && forall i :: 0 <= i < n ==> !p(s[i])
    ensures FilterTo(s, p, n) == []
  {
    if n > 0 {
      FilterToNone(s, p, n - 1);
    }
  }

  lemma FilterNone<T>(s: seq<T>, p: T -> bool)
    requires forall i :: 0 <= i < |s| ==> !p(s[i])
    ensures Filter(s, p) == []
  {
    FilterToNone(s, p, |s|);
  }

  lemma {:induction false} FilterToKeeps<T>(s: seq<T>, p: T -> bool, k: nat, n: nat)
    requires k < n <= |s| && p(s[k])
    ensures s[k] in FilterTo(s, p, n)
  {
    if k < n - 1 {
      FilterToKeeps(s, p, k, n - 1);
    }
  }

  lemma FilterKeeps<T>(s: seq<T>, p: T -> bool, k: nat)
    requires k < |s| && p(s[k])
    ensures s[k] in Filter(s, p)
  {
    FilterToKeeps(s, p, k, |s|);
  }

  lemma {:induction false} FilterToConcat<T>(a: seq<T>, b: seq<T>, p: T -> bool, n: nat)
    requires n <= |b|
    ensures FilterTo(a + b, p, |a| + n) == Filter(a, p) + FilterTo(b, p, n)
  {
    if n == 0 {
      FilterToPrefix(a + b, a, p, |a|);
    } else {
      FilterToConcat(a, b, p, n - 1);
      assert (a + b)[|a| + n - 1] == b[n - 1];
    }
  }

  lemma FilterConcat<T>(a: seq<T>, b: seq<T>, p: T -> bool)
    ensures Filter(a + b, p) == Filter(a, p) + Filter(b, p)
  {
    FilterToConcat(a, b, p, |b|);
  }

  lemma {:induction false} FilterToBound<T>(s: seq<T>, p: T -> bool, at: T -> int, n: nat, b: int)
    requires n <= |s| && forall i :: 0 <= i < n ==> at(s[i]) >= b
    ensures forall i :: 0 <= i < |FilterTo(s, p, n)| ==> at(FilterTo(s, p, n)[i]) >= b
  {
    if n > 0 {
      FilterToBound(s, p, at, n - 1, b);
    }
  }

  lemma {:induction false} FilterToDescending<T>(s: seq<T>, p: T -> bool, at: T -> int, n: nat)
    requires n <= |s| && forall i, j :: 0 <= i < j < n ==> at(s[i]) >= at(s[j])
    ensures forall i, j :: 0 <= i < j < |FilterTo(s, p, n)| ==> at(FilterTo(s, p, n)[i]) >= at(FilterTo(s, p, n)[j])
  {
    if n > 0 {
      FilterToDescending(s, p, at, n - 1);
      FilterToBound(s, p, at, n - 1, at(s[n - 1]));
    }
  }

  /** A sub-multiset of a distinct list is distinct. */
  lemma SubDistinct<T, K>(f: T -> K, s: seq<T>, t: seq<T>)
    requires multiset(t) <= multiset(s) && DistinctBy(f, s)
    ensures DistinctBy(f, t)
    ensures forall x :: x in t ==> x in s
  {
    SubMember(s, t);
    forall i, j | 0 <= i < j < |t|
      ensures f(t[i]) != f(t[j])
    {
      CountTwice(t, i, j);
      if f(t[i]) == f(t[j]) {
        CountOnce(f, s, t[i], t[j]);
      }
    }
  }

  lemma SubMember<T>(s: seq<T>, t: seq<T>)
    requires multiset(t) <= multiset(s)
    ensures forall x :: x in t ==> x in s
  {
    forall x | x in t
      ensures x in s
    {
      assert x in multiset(t);
    }
  }

  lemma CountTwice<T>(t: seq<T>, i: int, j: int)
    requires 0 <= i < j < |t|
    ensures t[i] == t[j] ==> multiset(t)[t[i]] >= 2
  {
    assert t == t[..j] + t[j..];
    assert t[i] in t[..j] && t[j] in t[j..];
    assert multiset(t)[t[i]] == multiset(t[..j])[t[i]] + multiset(t[j..])[t[i]];
  }

  lemma CountSplit<T>(before: seq<T>, x: T, after: seq<T>)
    requires x !in before && x !in after
    ensures multiset(before + [x] + after)[x] == 1
  {
    assert multiset(before + [x] + after) == multiset(before) + multiset([x]) + multiset(after);
  }

  lemma CountOnce<T, K>(f: T -> K, s: seq<T>, x: T, y: T)
    requires DistinctBy(f, s) && x in s && y in s && f(x) == f(y)
    ensures x == y && multiset(s)[x] == 1
  {
    var i :| 0 <= i < |s| && s[i] == x;
    var j :| 0 <= j < |s| && s[j] == y;
    assert i == j;
    assert s == s[..i] + [x] + s[i + 1..];
    CountSplit(s[..i], x, s[i + 1..]);
  }
}
