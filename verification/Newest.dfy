/** Newest-first lists: the stable sort of slices.SortStableFunc by descending
    timestamp, and the trim to the status limit (api/v1alpha1/violation_record.go). */
module Newest {
  import opened Seqs

  const MAX_VIOLATION_RECORDS := 100

  ghost predicate Sorted<T>(s: seq<T>, at: T -> int) {
    forall i, j :: 0 <= i < j < |s| ==> at(s[i]) >= at(s[j])
  }

  function AtTime<T>(at: T -> int, t: int): T -> bool { x => at(x) == t }

  /** The elements with timestamp t, in order. */
  ghost function Simultaneous<T>(s: seq<T>, at: T -> int, t: int): seq<T> {
    Filter(s, AtTime(at, t))
  }

  /** Elements with equal timestamps appear in the same order in both lists. */
  ghost predicate SameTies<T>(a: seq<T>, b: seq<T>, at: T -> int) {
    forall t :: Simultaneous(a, at, t) == Simultaneous(b, at, t)
  }

  /** The contract of a stable newest-first sort of s. */
  ghost predicate StableSort<T>(r: seq<T>, s: seq<T>, at: T -> int) {
    Sorted(r, at) && SameTies(r, s, at) && multiset(r) == multiset(s)
  }

  /** The stable sort: the one list that meets the contract (SortIsTheOnlyOne). */
  ghost function Sort<T>(s: seq<T>, at: T -> int): (r: seq<T>)
    ensures StableSort(r, s, at)
  {
    SortExists(s, at);
    var r :| StableSort(r, s, at);
    r
  }

  function Trim<T>(s: seq<T>): seq<T> {
    if |s| > MAX_VIOLATION_RECORDS then s[..MAX_VIOLATION_RECORDS] else s
  }

  // ----- ties -----

  lemma SimultaneousSnoc<T>(s: seq<T>, x: T, at: T -> int, t: int)
    ensures Simultaneous(s + [x], at, t) == Simultaneous(s, at, t) + if at(x) == t then [x] else []
  {
    FilterSnoc(s, x, AtTime(at, t));
  }

  lemma SimultaneousConcat<T>(a: seq<T>, b: seq<T>, at: T -> int, t: int)
    ensures Simultaneous(a + b, at, t) == Simultaneous(a, at, t) + Simultaneous(b, at, t)
  {
    FilterConcat(a, b, AtTime(at, t));
  }

  lemma TiesNone<T>(s: seq<T>, at: T -> int, t: int)
    requires forall i :: 0 <= i < |s| ==> at(s[i]) != t
    ensures Simultaneous(s, at, t) == []
  {
    FilterNone(s, AtTime(at, t));
  }

  lemma TiesHas<T>(s: seq<T>, at: T -> int, i: nat)
    requires i < |s|
    ensures Simultaneous(s, at, at(s[i])) != []
  {
    FilterKeeps(s, AtTime(at, at(s[i])), i);
  }

  lemma TiesWitness<T>(s: seq<T>, at: T -> int, t: int) returns (i: nat)
    requires Simultaneous(s, at, t) != []
    ensures i < |s| && at(s[i]) == t
  {
    var x := Simultaneous(s, at, t)[0];
    FilterMember(s, AtTime(at, t));
    i :| i < |s| && s[i] == x;
  }

  // ----- the sort exists and is the only one -----

  /** Where x goes among the first n elements: behind every one that is not older. */
  function Slot<T>(s: seq<T>, x: T, at: T -> int, n: nat): (i: nat)
    requires n <= |s|
    ensures i <= n
    ensures forall j :: i <= j < n ==> at(s[j]) < at(x)
    ensures i > 0 ==> at(s[i - 1]) >= at(x)
  {
    if n == 0 || at(s[n - 1]) >= at(x) then n else Slot(s, x, at, n - 1)
  }

  lemma InsertedSorted<T>(front: seq<T>, x: T, back: seq<T>, at: T -> int)
    requires Sorted(front + back, at)
    requires front != [] ==> at(front[|front| - 1]) >= at(x)
    requires forall i :: 0 <= i < |back| ==> at(back[i]) < at(x)
    ensures Sorted(front + [x] + back, at)
  {
    var s, r := front + back, front + [x] + back;
    assert forall j :: 0 <= j < |front| ==> r[j] == s[j];
    assert forall j :: |front| < j < |r| ==> r[j] == s[j - 1];
  }

  lemma InsertedTies<T>(front: seq<T>, x: T, back: seq<T>, at: T -> int, t: int)
    requires forall i :: 0 <= i < |back| ==> at(back[i]) < at(x)
    ensures Simultaneous(front + [x] + back, at, t) == Simultaneous(front + back + [x], at, t)
  {
    SimultaneousConcat(front + [x], back, at, t);
    SimultaneousSnoc(front, x, at, t);
    SimultaneousConcat(front, back, at, t);
    SimultaneousSnoc(front + back, x, at, t);
    if at(x) == t {
      TiesNone(back, at, t);
    }
  }

  lemma StepTiesAt<T>(front: seq<T>, x: T, back: seq<T>, init: seq<T>, at: T -> int, t: int)
    requires Simultaneous(front + back, at, t) == Simultaneous(init, at, t)
    requires forall i :: 0 <= i < |back| ==> at(back[i]) < at(x)
    ensures Simultaneous(front + [x] + back, at, t) == Simultaneous(init + [x], at, t)
  {
    InsertedTies(front, x, back, at, t);
    SimultaneousSnoc(front + back, x, at, t);
    SimultaneousSnoc(init, x, at, t);
  }

  lemma StepTies<T>(front: seq<T>, x: T, back: seq<T>, init: seq<T>, at: T -> int)
    requires SameTies(front + back, init, at)
    requires forall i :: 0 <= i < |back| ==> at(back[i]) < at(x)
    ensures SameTies(front + [x] + back, init + [x], at)
  {
    forall t
      ensures Simultaneous(front + [x] + back, at, t) == Simultaneous(init + [x], at, t)
    {
      StepTiesAt(front, x, back, init, at, t);
    }
  }

  lemma InsertedStableSort<T>(front: seq<T>, x: T, back: seq<T>, init: seq<T>, at: T -> int)
    requires StableSort(front + back, init, at)
    requires front != [] ==> at(front[|front| - 1]) >= at(x)
    requires forall i :: 0 <= i < |back| ==> at(back[i]) < at(x)
    ensures StableSort(front + [x] + back, init + [x], at)
  {
    InsertedSorted(front, x, back, at);
    StepTies(front, x, back, init, at);
  }

  lemma SplitSort<T>(r: seq<T>, i: nat, init: seq<T>, at: T -> int)
    requires StableSort(r, init, at) && i <= |r|
    ensures StableSort(r[..i] + r[i..], init, at)
  {
    assert r[..i] + r[i..] == r;
  }

  /** Inserting the next element into its slot sorts one element more. */
  lemma SortStep<T>(r: seq<T>, init: seq<T>, x: T, i: nat, at: T -> int)
    requires StableSort(r, init, at) && i == Slot(r, x, at, |r|)
    ensures StableSort(r[..i] + [x] + r[i..], init + [x], at)
  {
    SplitSort(r, i, init, at);
    InsertedStableSort(r[..i], x, r[i..], init, at);
  }

  lemma {:induction false} SortWitness<T>(s: seq<T>, at: T -> int) returns (r: seq<T>)
    ensures StableSort(r, s, at)
  {
    if s == [] {
      r := [];
    } else {
      var init, x := s[..|s| - 1], s[|s| - 1];
      r := SortWitness(init, at);
      var i := Slot(r, x, at, |r|);
      SortStep(r, init, x, i, at);
      r := r[..i] + [x] + r[i..];
      assert s == init + [x];
    }
  }

  lemma SortExists<T>(s: seq<T>, at: T -> int)
    ensures exists r :: StableSort(r, s, at)
  {
    var r := SortWitness(s, at);
  }

  /** slices.SortStableFunc, here by insertion. */
  method SortStable<T>(s: seq<T>, at: T -> int) returns (r: seq<T>)
    ensures r == Sort(s, at)
  {
    r := [];
    for k := 0 to |s|
      invariant StableSort(r, s[..k], at)
    {
      var i := Slot(r, s[k], at, |r|);
      SortStep(r, s[..k], s[k], i, at);
      r := r[..i] + [s[k]] + r[i..];
      assert s[..k + 1] == s[..k] + [s[k]];
    }
    assert s[..|s|] == s;
    SortIsTheOnlyOne(s, r, at);
  }

  lemma {:induction false} TiesDetermine<T>(a: seq<T>, b: seq<T>, at: T -> int)
    requires Sorted(a, at) && Sorted(b, at) && SameTies(a, b, at)
    ensures a == b
  {
    if a == [] {
      SameTiesEmpty(b, at);
    } else if b == [] {
      SameTiesEmpty(a, at);
    } else {
      LastIsOldest(a, b, at);
      LastIsOldest(b, a, at);
      var p, x, q, y := a[..|a| - 1], a[|a| - 1], b[..|b| - 1], b[|b| - 1];
      assert a == p + [x] && b == q + [y];
      SameTiesInit(p, x, q, y, at);
      TiesDetermine(p, q, at);
    }
  }

  lemma SameTiesEmpty<T>(s: seq<T>, at: T -> int)
    requires SameTies([], s, at) || SameTies(s, [], at)
    ensures s == []
  {
    if s != [] {
      var ties := Simultaneous(s, at, at(s[0]));
      TiesHas(s, at, 0);
    }
  }

  lemma SameTiesInit<T>(p: seq<T>, x: T, q: seq<T>, y: T, at: T -> int)
    requires SameTies(p + [x], q + [y], at) && at(x) == at(y)
    ensures SameTies(p, q, at) && x == y
  {
    forall t
      ensures Simultaneous(p, at, t) == Simultaneous(q, at, t)
    {
      assert Simultaneous(p + [x], at, t) == Simultaneous(q + [y], at, t);
      SimultaneousEnds(p, x, q, y, at, t);
    }
    assert Simultaneous(p + [x], at, at(x)) == Simultaneous(q + [y], at, at(x));
    SimultaneousEnds(p, x, q, y, at, at(x));
  }

  lemma SimultaneousEnds<T>(p: seq<T>, x: T, q: seq<T>, y: T, at: T -> int, t: int)
    requires Simultaneous(p + [x], at, t) == Simultaneous(q + [y], at, t) && at(x) == at(y)
    ensures Simultaneous(p, at, t) == Simultaneous(q, at, t)
    ensures at(x) == t ==> x == y
  {
    SimultaneousSnoc(p, x, at, t);
    SimultaneousSnoc(q, y, at, t);
    var u, v := Simultaneous(p, at, t), Simultaneous(q, at, t);
    assert u + [] == u && v + [] == v;
    if at(x) == t {
      assert (u + [x])[..|u|] == u && (v + [y])[..|v|] == v;
      assert (u + [x])[|u|] == x && (v + [y])[|v|] == y;
    }
  }

  lemma LastIsOldest<T>(a: seq<T>, b: seq<T>, at: T -> int)
    requires a != [] && b != [] && Sorted(a, at) && Sorted(b, at) && SameTies(a, b, at)
    ensures at(b[|b| - 1]) <= at(a[|a| - 1])
  {
    TiesHas(a, at, |a| - 1);
    assert Simultaneous(a, at, at(a[|a| - 1])) == Simultaneous(b, at, at(a[|a| - 1]));
    var i := TiesWitness(b, at, at(a[|a| - 1]));
  }

  /** Newest first with ties in order leaves one answer, so any stable sort is this one. */
  lemma SortIsTheOnlyOne<T>(s: seq<T>, r: seq<T>, at: T -> int)
    requires Sorted(r, at) && SameTies(r, s, at)
    ensures r == Sort(s, at)
  {
    var sorted := Sort(s, at);
    forall t
      ensures Simultaneous(r, at, t) == Simultaneous(sorted, at, t)
    {
    }
    TiesDetermine(r, sorted, at);
  }

  lemma SortOfSorted<T>(s: seq<T>, at: T -> int)
    requires Sorted(s, at)
    ensures Sort(s, at) == s
  {
    SortIsTheOnlyOne(s, s, at);
  }

  lemma SortLength<T>(s: seq<T>, at: T -> int)
    ensures |Sort(s, at)| == |s|
    ensures forall x :: x in Sort(s, at) <==> x in s
  {
    var r := Sort(s, at);
    assert |multiset(r)| == |multiset(s)|;
    forall x
      ensures x in r <==> x in s
    {
      assert x in multiset(r) <==> x in multiset(s);
    }
  }

  /** Trimming a sorted list drops nothing newer than what it keeps. */
  lemma TrimKeepsNewest<T>(s: seq<T>, at: T -> int)
    requires Sorted(s, at)
    ensures Sorted(Trim(s), at) && Trim(s) <= s && |Trim(s)| <= MAX_VIOLATION_RECORDS
    ensures forall i, j :: 0 <= i < |Trim(s)| <= j < |s| ==> at(Trim(s)[i]) >= at(s[j])
    ensures |Trim(s)| < |s| ==> |Trim(s)| == MAX_VIOLATION_RECORDS
  {
  }

  // ----- appending a batch that shares one timestamp -----

  /** The first index at or after i whose element is older than t, or |s|. */
  function FirstOlder<T>(s: seq<T>, at: T -> int, t: int, i: nat): (n: nat)
    requires i <= |s|
    ensures i <= n <= |s|
    ensures forall j :: i <= j < n ==> at(s[j]) >= t
    ensures n < |s| ==> at(s[n]) < t
    decreases |s| - i
  {
    if i == |s| || at(s[i]) < t then i else FirstOlder(s, at, t, i + 1)
  }

  lemma BatchTies<T>(front: seq<T>, batch: seq<T>, back: seq<T>, stored: seq<T>, at: T -> int, now: int, t: int)
    requires Simultaneous(front + back, at, t) == Simultaneous(stored, at, t)
    requires forall i :: 0 <= i < |batch| ==> at(batch[i]) == now
    requires forall i :: 0 <= i < |back| ==> at(back[i]) < now
    ensures Simultaneous(front + batch + back, at, t) == Simultaneous(stored + batch, at, t)
  {
    SimultaneousConcat(front + batch, back, at, t);
    SimultaneousConcat(front, batch, at, t);
    SimultaneousConcat(front, back, at, t);
    SimultaneousConcat(stored, batch, at, t);
    var a, b, c := Simultaneous(front, at, t), Simultaneous(batch, at, t), Simultaneous(back, at, t);
    if t == now { TiesNone(back, at, t); } else { TiesNone(batch, at, t); }
    assert b == [] || c == [];
    assert a + b + c == a + c + b;
  }

  lemma BatchSorted<T>(front: seq<T>, batch: seq<T>, back: seq<T>, at: T -> int, now: int)
    requires Sorted(front + back, at)
    requires forall i :: 0 <= i < |front| ==> at(front[i]) >= now
    requires forall i :: 0 <= i < |batch| ==> at(batch[i]) == now
    requires forall i :: 0 <= i < |back| ==> at(back[i]) < now
    ensures Sorted(front + batch + back, at)
  {
    var s, r := front + back, front + batch + back;
    assert forall j :: 0 <= j < |front| ==> r[j] == s[j];
    assert forall j :: |front| <= j < |front| + |batch| ==> r[j] == batch[j - |front|];
    assert forall j :: |front| + |batch| <= j < |r| ==> r[j] == s[j - |batch|];
  }

  /** A batch stamped `now` lands, in order, between the entries that are not older
      and those that are. */
  lemma SortAppendBatch<T>(stored: seq<T>, batch: seq<T>, at: T -> int, now: int)
    requires forall i :: 0 <= i < |batch| ==> at(batch[i]) == now
    ensures var sorted := Sort(stored, at);
            var n := FirstOlder(sorted, at, now, 0);
            Sort(stored + batch, at) == sorted[..n] + batch + sorted[n..]
  {
    var sorted := Sort(stored, at);
    var n := FirstOlder(sorted, at, now, 0);
    var front, back := sorted[..n], sorted[n..];
    assert sorted == front + back;
    BatchSorted(front, batch, back, at, now);
    forall t
      ensures Simultaneous(front + batch + back, at, t) == Simultaneous(stored + batch, at, t)
    {
      assert Simultaneous(sorted, at, t) == Simultaneous(stored, at, t);
      BatchTies(front, batch, back, stored, at, now, t);
    }
    SortIsTheOnlyOne(stored + batch, front + batch + back, at);
  }
}
