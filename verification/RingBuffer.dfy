/** The bounded violation buffer (internal/ringbuf/buffer.go). Its mutex makes every
    method one atomic step, so an interleaving is a sequence of method calls. */
module RingBuffer {

  const MAX_BUFFER_ENTRIES := 10_000

  function Min(a: nat, b: nat): nat { if a < b then a else b }

  /** The last min(|s|, n) elements of s, newest first. */
  function NewestFirst<T>(s: seq<T>, n: nat): seq<T> {
    seq(Min(|s|, n), i requires 0 <= i < Min(|s|, n) => s[|s| - 1 - i])
  }

  /** How many of the first n records after a drain overwrite an older one. */
  function Overwrites(n: nat, capacity: nat): nat { if n <= capacity then 0 else n - capacity }

  lemma DistinctSlots(i: nat, j: nat, capacity: nat)
    requires 0 < capacity && i < j < i + capacity
    ensures i % capacity != j % capacity
  {
    var d := j / capacity - i / capacity;
    assert j % capacity - i % capacity == j - i - capacity * d;
    if d > 0 {
      assert capacity * d >= capacity;
    }
  }

  class Buffer<T(0)> {
    const buf: array<T>
    var pos: nat
    const capacity: nat

    /** The records since the last drain, and how many of those calls reported a drop. */
    ghost var since: seq<T>
    ghost var drops: nat

    ghost predicate Valid()
      reads this, buf
    {
      && buf.Length == capacity > 0
      && pos == |since|
      && drops == Overwrites(|since|, capacity)
      && forall i :: Overwrites(pos, capacity) <= i < pos ==> buf[i % capacity] == since[i]
    }

    /** NewWithSize: a size that is not positive selects the default. */
    constructor (size: int)
      ensures Valid() && fresh(buf) && since == []
      ensures capacity == if size <= 0 then MAX_BUFFER_ENTRIES else size
    {
      var n: nat := if size <= 0 then MAX_BUFFER_ENTRIES else size;
      buf := new T[n];
      capacity := n;
      pos := 0;
      since := [];
      drops := 0;
    }

    method Record(rec: T) returns (dropped: bool)
      requires Valid()
      modifies this, buf
      ensures Valid()
      ensures since == old(since) + [rec]
      ensures dropped <==> |old(since)| >= capacity
      ensures drops == old(drops) + if dropped then 1 else 0
    {
      dropped := pos >= capacity;
      forall i | Overwrites(pos + 1, capacity) <= i < pos
        ensures i % capacity != pos % capacity
      {
        DistinctSlots(i, pos, capacity);
      }
      buf[pos % capacity] := rec;
      pos := pos + 1;
      since := since + [rec];
      if dropped {
        drops := drops + 1;
      }
    }

    method Drain() returns (records: seq<T>)
      requires Valid()
      modifies this
      ensures Valid()
      ensures records == NewestFirst(old(since), capacity)
      ensures |records| == (if |old(since)| < capacity then |old(since)| else capacity)
      ensures forall i :: 0 <= i < |records| ==> records[i] == old(since)[|old(since)| - 1 - i]
      ensures since == []
    {
      var n := Min(pos, capacity);
      records := [];
      for i := 0 to n
        invariant records == NewestFirst(since, i)
        invariant Valid() && pos == old(pos) && since == old(since)
      {
        records := records + [buf[(pos - 1 - i) % capacity]];
      }
      pos := 0;
      since := [];
      drops := 0;
    }
  }

  /** A drain accounts for every record since the previous one: kept or overwritten. */
  lemma DrainAccounts<T>(since: seq<T>, capacity: nat)
    ensures |NewestFirst(since, capacity)| + Overwrites(|since|, capacity) == |since|
  {
  }
}
