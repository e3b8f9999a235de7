/** Sums over finite sets, and counting. */
module Sums {

  ghost function Sum<K(!new)>(keys: set<K>, f: K -> int): int {
    if keys == {} then 0
    else
      var k :| k in keys;
      f(k) + Sum(keys - {k}, f)
  }

  lemma {:induction false} SumRemove<K(!new)>(keys: set<K>, f: K -> int, k: K)
    requires k in keys
    ensures Sum(keys, f) == f(k) + Sum(keys - {k}, f)
    decreases keys
  {
    var x :| x in keys && Sum(keys, f) == f(x) + Sum(keys - {x}, f);
    if x != k {
      SumRemove(keys - {x}, f, k);
      SumRemove(keys - {k}, f, x);
      assert keys - {x} - {k} == keys - {k} - {x};
    }
  }

  lemma SumAdd<K(!new)>(keys: set<K>, f: K -> int, k: K)
    requires k !in keys
    ensures Sum(keys + {k}, f) == Sum(keys, f) + f(k)
  {
    SumRemove(keys + {k}, f, k);
    assert keys + {k} - {k} == keys;
  }

  lemma {:induction false} SumSame<K(!new)>(keys: set<K>, f: K -> int, g: K -> int)
    requires forall k :: k in keys ==> f(k) == g(k)
    ensures Sum(keys, f) == Sum(keys, g)
    decreases keys
  {
    if keys != {} {
      var k :| k in keys;
      SumRemove(keys, f, k);
      SumRemove(keys, g, k);
      SumSame(keys - {k}, f, g);
    }
  }

  /** Raising the value of one key raises the sum by as much. */
  lemma SumBump<K(!new)>(keys: set<K>, f: K -> int, g: K -> int, k: K, d: int)
    requires k in keys && g(k) == f(k) + d && forall x :: x in keys && x != k ==> g(x) == f(x)
    ensures Sum(keys, g) == Sum(keys, f) + d
  {
    SumRemove(keys, f, k);
    SumRemove(keys, g, k);
    SumSame(keys - {k}, f, g);
  }

  lemma {:induction false} SumZero<K(!new)>(keys: set<K>, f: K -> int)
    requires forall k :: k in keys ==> f(k) == 0
    ensures Sum(keys, f) == 0
    decreases keys
  {
    if keys != {} {
      var k :| k in keys;
      SumRemove(keys, f, k);
      SumZero(keys - {k}, f);
    }
  }

  /** Pigeonhole: of more choices than are used, one is unused. */
  lemma {:induction false} Unused<K>(used: seq<K>, choices: set<K>, n: nat) returns (x: K)
    requires n <= |used| && |choices| > n
    ensures x in choices && forall i :: 0 <= i < n ==> used[i] != x
    decreases n
  {
    if n == 0 {
      x :| x in choices;
    } else {
      x := Unused(used, choices - {used[n - 1]}, n - 1);
    }
  }
}
