/** mergeScrapedViolations (api/v1alpha1/violation_record.go): deduplicate a batch of
    scraped violations into the active list, newest first, at most one hundred. */
module Merge {
  import opened Api
  import opened Newest
  import opened Seqs

  /** ViolationRecordKey: what makes two observations the same violation. */
  datatype RecordKey = RecordKey(
    srcNamespace: string, srcOwnerKind: string, srcOwnerName: string, srcIdentity: string,
    dstNamespace: string, dstOwnerKind: string, dstOwnerName: string, dstIdentity: string,
    protocol: string, dstPort: int, action: string, denyingNamespace: string, denyingName: string)

  function Key(v: ViolationRecord): RecordKey {
    var i := v.info;
    RecordKey(
      i.source.namespace, i.source.ownerKind, i.source.ownerName, i.source.identity,
      i.dest.namespace, i.dest.ownerKind, i.dest.ownerName, i.dest.identity,
      i.protocol, i.dstPort, i.action, i.denyingNamespace, i.denyingName)
  }

  /** The same workload, whatever its labels. */
  ghost predicate SameEndpoint(a: WorkloadRef, b: WorkloadRef) {
    a.namespace == b.namespace && a.ownerKind == b.ownerKind && a.ownerName == b.ownerName && a.identity == b.identity
  }

  /** The same flow of the same workloads, under the same policy and with the same action. */
  ghost predicate SameViolation(a: ViolationInfo, b: ViolationInfo) {
    && SameEndpoint(a.source, b.source) && SameEndpoint(a.dest, b.dest)
    && a.protocol == b.protocol && a.dstPort == b.dstPort && a.action == b.action
    && a.denyingNamespace == b.denyingNamespace && a.denyingName == b.denyingName
  }

  const NO_SELECTOR := LabelSelector(map[], [])

  /** What is left of an observation without its time and the labels of its endpoints. */
  ghost function Timeless(i: ViolationInfo): ViolationInfo {
    i.(timestamp := 0, source := i.source.(selector := NO_SELECTOR), dest := i.dest.(selector := NO_SELECTOR))
  }

  /** Two observations are merged exactly when they differ in nothing but their time and the
      labels of their endpoints. */
  lemma SameKeyIff(v: ViolationRecord, w: ViolationRecord)
    ensures Key(v) == Key(w) <==> Timeless(v.info) == Timeless(w.info)
    ensures Key(v) == Key(w) <==> SameViolation(v.info, w.info)
  {
  }

  /** How the merge looks at a record. It is stated for any record type, because
      nothing in it depends on what a violation is. */
  datatype View<!R, !K> = View(
    keyOf: R -> K, seenOf: R -> int, idOf: R -> int, setSeen: (R, int) -> R, setId: (R, int) -> R)
  {
    function Key(r: R): K { keyOf(r) }
    function Seen(r: R): int { seenOf(r) }
    function Id(r: R): int { idOf(r) }
    function WithSeen(r: R, t: int): R { setSeen(r, t) }
    function WithId(r: R, n: int): R { setId(r, n) }
  }

  /** Fields are independent, and the key depends on neither time nor ID. */
  ghost predicate Lawful<R(!new), K(!new)>(w: View<R, K>) {
    && (forall r, t {:trigger w.Key(w.WithSeen(r, t))} :: w.Key(w.WithSeen(r, t)) == w.Key(r))
    && (forall r, t {:trigger w.Id(w.WithSeen(r, t))} :: w.Id(w.WithSeen(r, t)) == w.Id(r))
    && (forall r, t {:trigger w.Seen(w.WithSeen(r, t))} :: w.Seen(w.WithSeen(r, t)) == t)
    && (forall r, n {:trigger w.Key(w.WithId(r, n))} :: w.Key(w.WithId(r, n)) == w.Key(r))
    && (forall r, n {:trigger w.Id(w.WithId(r, n))} :: w.Id(w.WithId(r, n)) == n)
    && (forall r, n {:trigger w.Seen(w.WithId(r, n))} :: w.Seen(w.WithId(r, n)) == w.Seen(r))
    && (forall r {:trigger w.WithSeen(r, w.Seen(r))} :: w.WithSeen(r, w.Seen(r)) == r)
    && (forall r, t, u {:trigger w.WithSeen(w.WithSeen(r, t), u)} ::
          w.WithSeen(w.WithSeen(r, t), u) == w.WithSeen(r, u))
    && (forall r, n, t {:trigger w.WithSeen(w.WithId(r, n), t)} ::
          w.WithSeen(w.WithId(r, n), t) == w.WithId(w.WithSeen(r, t), n))
  }

  function Violations(): View<ViolationRecord, RecordKey> {
    View(v => Key(v), (v: ViolationRecord) => v.info.timestamp, (v: ViolationRecord) => v.id,
         (v: ViolationRecord, t: int) => v.(info := v.info.(timestamp := t)),
         (v: ViolationRecord, n: int) => v.(id := n))
  }

  lemma ViolationsLawful()
    ensures Lawful(Violations())
  {
  }

  /** Index of the last of the first n records with key k, or -1. */
  function Find<R, K(==)>(w: View<R, K>, vs: seq<R>, k: K, n: nat): (i: int)
    requires n <= |vs|
    ensures -1 <= i < n
    ensures i >= 0 ==> w.Key(vs[i]) == k
    ensures forall j :: i < j < n ==> w.Key(vs[j]) != k
  {
    if n == 0 then -1 else if w.Key(vs[n - 1]) == k then n - 1 else Find(w, vs, k, n - 1)
  }

  /** One observation: refresh the record with its key, or append it under the next ID. */
  function MergeOne<R, K(==)>(w: View<R, K>, vs: seq<R>, count: int, v: R): seq<R> {
    var i := Find(w, vs, w.Key(v), |vs|);
    if i < 0 then vs + [w.WithId(v, count)]
    else if w.Seen(v) > w.Seen(vs[i]) then vs[i := w.WithSeen(vs[i], w.Seen(v))]
    else vs
  }

  function Step<R, K(==)>(w: View<R, K>): (seq<R>, int, R) -> seq<R> { (vs, n, v) => MergeOne(w, vs, n, v) }

  /** Apply a step to every element of the batch, with the running count. */
  function Fold<R>(step: (seq<R>, int, R) -> seq<R>, vs: seq<R>, count: int, batch: seq<R>): seq<R> {
    if batch == [] then vs
    else step(Fold(step, vs, count, batch[..|batch| - 1]), count + |batch| - 1, batch[|batch| - 1])
  }

  /** The list before it is sorted and trimmed. */
  function MergeAll<R, K(==)>(w: View<R, K>, vs: seq<R>, count: int, batch: seq<R>): seq<R> {
    Fold(Step(w), vs, count, batch)
  }

  ghost function Merged<R, K>(w: View<R, K>, vs: seq<R>, count: int, batch: seq<R>): seq<R> {
    Trim(Sort(MergeAll(w, vs, count, batch), w.seenOf))
  }

  /** The key-to-index map of the code agrees with a linear scan of the first n records. */
  ghost predicate IndexAgrees<R, K(!new)>(w: View<R, K>, index: map<K, int>, vs: seq<R>, n: nat)
    requires n <= |vs|
  {
    forall k :: if k in index then index[k] == Find(w, vs, k, n) >= 0 else Find(w, vs, k, n) < 0
  }

  lemma {:induction false} FindSameKeys<R, K>(w: View<R, K>, vs: seq<R>, vs': seq<R>, k: K, n: nat)
    requires n <= |vs| && n <= |vs'| && forall i :: 0 <= i < n ==> w.Key(vs[i]) == w.Key(vs'[i])
    ensures Find(w, vs, k, n) == Find(w, vs', k, n)
  {
    if n > 0 {
      FindSameKeys(w, vs, vs', k, n - 1);
    }
  }

  /** Refreshing the time of a record leaves the index right. */
  lemma RefreshAgrees<R(!new), K(!new)>(w: View<R, K>, index: map<K, int>, vs: seq<R>, i: nat, t: int)
    requires Lawful(w) && IndexAgrees(w, index, vs, |vs|) && i < |vs|
    ensures IndexAgrees(w, index, vs[i := w.WithSeen(vs[i], t)], |vs|)
  {
    var vs' := vs[i := w.WithSeen(vs[i], t)];
    forall k ensures Find(w, vs', k, |vs|) == Find(w, vs, k, |vs|) { FindSameKeys(w, vs, vs', k, |vs|); }
  }

  lemma AppendAgrees<R(!new), K(!new)>(w: View<R, K>, index: map<K, int>, vs: seq<R>, r: R)
    requires IndexAgrees(w, index, vs, |vs|)
    ensures IndexAgrees(w, index[w.Key(r) := |vs|], vs + [r], |vs| + 1)
  {
    forall k ensures Find(w, vs + [r], k, |vs|) == Find(w, vs, k, |vs|) { FindSameKeys(w, vs, vs + [r], k, |vs|); }
  }

  /** Merging through the index is merging by the scan, and leaves the index right. */
  lemma IndexDecides<R(!new), K(!new)>(w: View<R, K>, index: map<K, int>, vs: seq<R>, count: int, v: R)
    requires Lawful(w) && IndexAgrees(w, index, vs, |vs|)
    ensures w.Key(v) in index ==> 0 <= index[w.Key(v)] < |vs|
    ensures MergeOne(w, vs, count, v) ==
            if w.Key(v) !in index then vs + [w.WithId(v, count)]
            else if w.Seen(v) > w.Seen(vs[index[w.Key(v)]])
            then vs[index[w.Key(v)] := w.WithSeen(vs[index[w.Key(v)]], w.Seen(v))] else vs
    ensures var merged := MergeOne(w, vs, count, v);
            IndexAgrees(w, if w.Key(v) in index then index else index[w.Key(v) := |vs|], merged, |merged|)
  {
    if w.Key(v) in index {
      RefreshAgrees(w, index, vs, index[w.Key(v)], w.Seen(v));
    } else {
      AppendAgrees(w, index, vs, w.WithId(v, count));
    }
  }

  lemma MergeAllSnoc<R, K>(w: View<R, K>, vs: seq<R>, count: int, batch: seq<R>, i: nat)
    requires i < |batch|
    ensures MergeAll(w, vs, count, batch[..i + 1]) ==
            MergeOne(w, MergeAll(w, vs, count, batch[..i]), count + i, batch[i])
  {
    assert batch[..i + 1][..i] == batch[..i];
  }

  /** The first loop of mergeScrapedViolations. */
  method IndexByKey<R(!new), K(!new, ==)>(w: View<R, K>, vs: seq<R>) returns (index: map<K, int>)
    ensures IndexAgrees(w, index, vs, |vs|)
  {
    index := map[];
    for i := 0 to |vs|
      invariant IndexAgrees(w, index, vs, i)
    {
      index := index[w.Key(vs[i]) := i];
    }
  }

  /** mergeScrapedViolations; the caller owns the status fields. */
  method MergeScraped<R(!new), K(!new, ==)>(w: View<R, K>, vs: seq<R>, count: int, scraped: seq<R>)
    returns (violations: seq<R>, violationCount: int)
    requires Lawful(w)
    ensures violations == Merged(w, vs, count, scraped)
    ensures violationCount == count + |scraped|
  {
    violations, violationCount := vs, count;
    var indexByKey := IndexByKey(w, violations);
    for i := 0 to |scraped|
      invariant violationCount == count + i
      invariant violations == MergeAll(w, vs, count, scraped[..i])
      invariant IndexAgrees(w, indexByKey, violations, |violations|)
    {
      var v := scraped[i];
      var key := w.Key(v);
      MergeAllSnoc(w, vs, count, scraped, i);
      IndexDecides(w, indexByKey, violations, violationCount, v);
      if key in indexByKey {
        var idx := indexByKey[key];
        if w.Seen(v) > w.Seen(violations[idx]) {
          violations := violations[idx := w.WithSeen(violations[idx], w.Seen(v))];
        }
      } else {
        violations := violations + [w.WithId(v, violationCount)];
        indexByKey := indexByKey[key := |violations| - 1];
      }
      violationCount := violationCount + 1;
    }
    assert scraped[..|scraped|] == scraped;
    violations := SortStable(violations, w.seenOf);
    if |violations| > MAX_VIOLATION_RECORDS {
      violations := violations[..MAX_VIOLATION_RECORDS];
    }
  }

  // ----- what the merge means -----

  ghost predicate DistinctKeys<R, K>(w: View<R, K>, vs: seq<R>) {
    DistinctBy(w.keyOf, vs)
  }

  ghost predicate HasKey<R, K>(w: View<R, K>, vs: seq<R>, k: K) {
    exists i :: 0 <= i < |vs| && w.Key(vs[i]) == k
  }

  /** batch[j] is the first observation of a violation that was not active. */
  ghost predicate FirstSighting<R, K>(w: View<R, K>, vs: seq<R>, batch: seq<R>, j: int) {
    0 <= j < |batch| && !HasKey(w, vs, w.Key(batch[j])) && !HasKey(w, batch[..j], w.Key(batch[j]))
  }

  /** r carries the time of the latest of all observations of its violation. */
  ghost predicate Latest<R, K>(w: View<R, K>, vs: seq<R>, batch: seq<R>, r: R) {
    && (forall i :: 0 <= i < |vs| && w.Key(vs[i]) == w.Key(r) ==> w.Seen(vs[i]) <= w.Seen(r))
    && (forall j :: 0 <= j < |batch| && w.Key(batch[j]) == w.Key(r) ==> w.Seen(batch[j]) <= w.Seen(r))
    && (|| (exists i :: 0 <= i < |vs| && w.Key(vs[i]) == w.Key(r) && w.Seen(vs[i]) == w.Seen(r))
        || (exists j :: 0 <= j < |batch| && w.Key(batch[j]) == w.Key(r) && w.Seen(batch[j]) == w.Seen(r)))
  }

  /** r is new: its fields are those of its first sighting, its ID the count then. */
  ghost predicate Opened<R, K>(w: View<R, K>, vs: seq<R>, count: int, batch: seq<R>, r: R) {
    exists j :: FirstSighting(w, vs, batch, j) && r == w.WithId(w.WithSeen(batch[j], w.Seen(r)), count + j)
  }

  ghost predicate AllKept<R, K>(w: View<R, K>, vs: seq<R>, m: seq<R>) {
    |vs| <= |m| && forall i :: 0 <= i < |vs| ==> m[i] == w.WithSeen(vs[i], w.Seen(m[i]))
  }

  ghost predicate AllOpened<R, K>(w: View<R, K>, vs: seq<R>, count: int, batch: seq<R>, m: seq<R>) {
    forall i :: |vs| <= i < |m| ==> Opened(w, vs, count, batch, m[i])
  }

  ghost predicate AllLatest<R, K>(w: View<R, K>, vs: seq<R>, batch: seq<R>, m: seq<R>) {
    forall i :: 0 <= i < |m| ==> Latest(w, vs, batch, m[i])
  }

  ghost predicate AllPresent<R, K>(w: View<R, K>, batch: seq<R>, m: seq<R>) {
    forall j :: 0 <= j < |batch| ==> HasKey(w, m, w.Key(batch[j]))
  }

  /** New records stand in the order of their first sightings. */
  ghost predicate AllInOrder<R, K>(w: View<R, K>, vs: seq<R>, m: seq<R>) {
    forall i, j :: |vs| <= i < j < |m| ==> w.Id(m[i]) < w.Id(m[j])
  }

  /** The untrimmed result, stated without the code: old records keep their place and
      everything but their time, new ones are opened by their first sighting and follow in
      that order, every violation of the batch is present, no violation twice, and every
      time is the latest seen. */
  ghost predicate MergeOf<R, K>(w: View<R, K>, vs: seq<R>, count: int, batch: seq<R>, m: seq<R>) {
    && DistinctKeys(w, m)
    && AllKept(w, vs, m)
    && AllOpened(w, vs, count, batch, m)
    && AllInOrder(w, vs, m)
    && AllLatest(w, vs, batch, m)
    && AllPresent(w, batch, m)
  }

  /** One step, on a list with distinct keys: the record of the violation, if any,
      takes the later time, and a violation without one is appended. */
  ghost predicate Effect<R, K>(w: View<R, K>, m: seq<R>, n: int, v: R, m': seq<R>) {
    && |m'| == |m| + (if HasKey(w, m, w.Key(v)) then 0 else 1)
    && (!HasKey(w, m, w.Key(v)) ==> m'[|m|] == w.WithId(v, n))
    && forall i :: 0 <= i < |m| ==>
                     m'[i] == w.WithSeen(m[i], if w.Key(m[i]) == w.Key(v) && w.Seen(v) > w.Seen(m[i])
                                               then w.Seen(v) else w.Seen(m[i]))
  }

  lemma MergeOneEffect<R(!new), K(!new)>(w: View<R, K>, m: seq<R>, n: int, v: R)
    requires Lawful(w) && DistinctKeys(w, m)
    ensures Effect(w, m, n, v, MergeOne(w, m, n, v))
  {
  }

  lemma OpenedGrows<R(!new), K(!new)>(w: View<R, K>, vs: seq<R>, count: int, init: seq<R>, v: R, r: R, t: int)
    requires Lawful(w) && Opened(w, vs, count, init, r)
    ensures Opened(w, vs, count, init + [v], w.WithSeen(r, t))
  {
    var j :| FirstSighting(w, vs, init, j) && r == w.WithId(w.WithSeen(init[j], w.Seen(r)), count + j);
    var batch := init + [v];
    assert batch[..j] == init[..j] && batch[j] == init[j];
    assert FirstSighting(w, vs, batch, j);
    assert w.WithSeen(r, t) == w.WithId(w.WithSeen(w.WithSeen(init[j], w.Seen(r)), t), count + j);
  }

  lemma LatestGrows<R, K>(w: View<R, K>, vs: seq<R>, init: seq<R>, v: R, r: R, r': R)
    requires Latest(w, vs, init, r)
    requires w.Key(r') == w.Key(r)
    requires w.Seen(r') == if w.Key(v) == w.Key(r) && w.Seen(v) > w.Seen(r) then w.Seen(v) else w.Seen(r)
    ensures Latest(w, vs, init + [v], r')
  {
    var batch := init + [v];
    assert batch[|init|] == v;
    assert forall j :: 0 <= j < |init| ==> batch[j] == init[j];
  }

  lemma KeptStep<R(!new), K(!new)>(w: View<R, K>, vs: seq<R>, m: seq<R>, n: int, v: R, m': seq<R>)
    requires Lawful(w) && AllKept(w, vs, m) && DistinctKeys(w, m) && Effect(w, m, n, v, m')
    ensures AllKept(w, vs, m') && DistinctKeys(w, m')
  {
    forall i | 0 <= i < |m|
      ensures w.Key(m'[i]) == w.Key(m[i])
      ensures i < |vs| ==> m'[i] == w.WithSeen(vs[i], w.Seen(m'[i]))
    {
      if i < |vs| {
        assert w.WithSeen(w.WithSeen(vs[i], w.Seen(m[i])), w.Seen(m'[i])) == w.WithSeen(vs[i], w.Seen(m'[i]));
      }
    }
    forall i, j | 0 <= i < j < |m'|
      ensures w.keyOf(m'[i]) != w.keyOf(m'[j])
    {
      assert w.Key(m'[i]) == w.keyOf(m[i]);
      assert j < |m| ==> w.Key(m'[j]) == w.keyOf(m[j]);
      assert j == |m| ==> w.Key(m'[j]) == w.Key(v);
    }
  }

  lemma OpenedStep<R(!new), K(!new)>(
    w: View<R, K>, vs: seq<R>, count: int, init: seq<R>, m: seq<R>, v: R, m': seq<R>)
    requires Lawful(w) && AllOpened(w, vs, count, init, m) && Effect(w, m, count + |init|, v, m')
    requires !HasKey(w, m, w.Key(v)) ==> Opened(w, vs, count, init + [v], w.WithId(v, count + |init|))
    ensures AllOpened(w, vs, count, init + [v], m')
  {
    forall i | |vs| <= i < |m'|
      ensures Opened(w, vs, count, init + [v], m'[i])
    {
      if i < |m| {
        OpenedGrows(w, vs, count, init, v, m[i], w.Seen(m'[i]));
      }
    }
  }

  /** The first sighting that opened a new record. */
  lemma OpeningOf<R(!new), K(!new)>(w: View<R, K>, vs: seq<R>, count: int, batch: seq<R>, r: R) returns (j: int)
    requires Lawful(w) && Opened(w, vs, count, batch, r)
    ensures FirstSighting(w, vs, batch, j) && w.Id(r) == count + j && w.Key(r) == w.Key(batch[j])
  {
    j :| FirstSighting(w, vs, batch, j) && r == w.WithId(w.WithSeen(batch[j], w.Seen(r)), count + j);
  }

  /** An appended record has the highest ID so far. */
  lemma OrderStep<R(!new), K(!new)>(
    w: View<R, K>, vs: seq<R>, count: int, init: seq<R>, m: seq<R>, v: R, m': seq<R>)
    requires Lawful(w) && AllOpened(w, vs, count, init, m) && AllInOrder(w, vs, m)
    requires Effect(w, m, count + |init|, v, m')
    ensures AllInOrder(w, vs, m')
  {
    forall i | |vs| <= i < |m|
      ensures w.Id(m'[i]) == w.Id(m[i]) < count + |init|
    {
      var j := OpeningOf(w, vs, count, init, m[i]);
    }
  }

  lemma LatestStep<R(!new), K(!new)>(
    w: View<R, K>, vs: seq<R>, init: seq<R>, m: seq<R>, n: int, v: R, m': seq<R>)
    requires Lawful(w) && AllLatest(w, vs, init, m) && Effect(w, m, n, v, m')
    requires !HasKey(w, m, w.Key(v)) ==> Latest(w, vs, init + [v], w.WithId(v, n))
    ensures AllLatest(w, vs, init + [v], m')
  {
    forall i | 0 <= i < |m'|
      ensures Latest(w, vs, init + [v], m'[i])
    {
      if i < |m| {
        LatestGrows(w, vs, init, v, m[i], m'[i]);
      }
    }
  }

  lemma PresentStep<R(!new), K(!new)>(w: View<R, K>, init: seq<R>, m: seq<R>, n: int, v: R, m': seq<R>)
    requires Lawful(w) && AllPresent(w, init, m) && Effect(w, m, n, v, m')
    ensures AllPresent(w, init + [v], m')
  {
    var batch := init + [v];
    forall j | 0 <= j < |batch|
      ensures HasKey(w, m', w.Key(batch[j]))
    {
      if HasKey(w, m, w.Key(batch[j])) {
        var i :| 0 <= i < |m| && w.Key(m[i]) == w.Key(batch[j]);
        assert w.Key(m'[i]) == w.Key(batch[j]);
      } else {
        assert j == |init| && w.Key(m'[|m|]) == w.Key(v);
      }
    }
  }

  lemma KeyOfKept<R(!new), K(!new)>(w: View<R, K>, r: R, r': R)
    requires Lawful(w) && r' == w.WithSeen(r, w.Seen(r'))
    ensures w.Key(r') == w.Key(r)
  {
  }

  /** A violation with no record is sighted for the first time. */
  lemma FreshSighting<R(!new), K(!new)>(w: View<R, K>, vs: seq<R>, count: int, init: seq<R>, m: seq<R>, v: R)
    requires Lawful(w) && AllKept(w, vs, m) && AllPresent(w, init, m) && !HasKey(w, m, w.Key(v))
    ensures var batch, r := init + [v], w.WithId(v, count + |init|);
            Opened(w, vs, count, batch, r) && Latest(w, vs, batch, r)
  {
    var batch, r := init + [v], w.WithId(v, count + |init|);
    forall i | 0 <= i < |vs|
      ensures w.Key(vs[i]) != w.Key(v)
    {
      KeyOfKept(w, vs[i], m[i]);
    }
    forall j | 0 <= j < |init|
      ensures w.Key(init[j]) != w.Key(v)
    {
      assert HasKey(w, m, w.Key(init[j]));
    }
    assert batch[..|init|] == init && batch[|init|] == v;
    assert FirstSighting(w, vs, batch, |init|);
    assert r == w.WithId(w.WithSeen(v, w.Seen(v)), count + |init|);
  }

  lemma MergeOneStep<R(!new), K(!new)>(
    w: View<R, K>, vs: seq<R>, count: int, init: seq<R>, m: seq<R>, n: int, v: R, m': seq<R>)
    requires Lawful(w) && MergeOf(w, vs, count, init, m) && n == count + |init| && Effect(w, m, n, v, m')
    ensures MergeOf(w, vs, count, init + [v], m')
  {
    if !HasKey(w, m, w.Key(v)) { FreshSighting(w, vs, count, init, m, v); }
    KeptStep(w, vs, m, count + |init|, v, m');
    OpenedStep(w, vs, count, init, m, v, m');
    OrderStep(w, vs, count, init, m, v, m');
    LatestStep(w, vs, init, m, count + |init|, v, m');
    PresentStep(w, init, m, count + |init|, v, m');
  }

  /** A property of (batch so far, list so far) that every step keeps holds at the end. */
  lemma {:induction false} FoldInvariant<R(!new)>(
    step: (seq<R>, int, R) -> seq<R>, vs: seq<R>, count: int, batch: seq<R>, p: (seq<R>, seq<R>) -> bool)
    requires p([], vs)
    requires forall init, m, n, v {:trigger p(init, m), step(m, n, v)} ::
               p(init, m) && n == count + |init| ==> p(init + [v], step(m, n, v))
    ensures p(batch, Fold(step, vs, count, batch))
  {
    if batch != [] {
      var init := batch[..|batch| - 1];
      FoldInvariant(step, vs, count, init, p);
      assert batch == init + [batch[|batch| - 1]];
    }
  }

  /** The merge refines its specification, for every batch. */
  lemma MergeAllSpec<R(!new), K(!new)>(w: View<R, K>, vs: seq<R>, count: int, batch: seq<R>)
    requires Lawful(w) && DistinctKeys(w, vs)
    ensures MergeOf(w, vs, count, batch, MergeAll(w, vs, count, batch))
  {
    var p := (b, m) => MergeOf(w, vs, count, b, m);
    MergeNothing(w, vs, count);
    forall init, m, n, v | p(init, m) && n == count + |init|
      ensures p(init + [v], Step(w)(m, n, v))
    {
      MergeOneEffect(w, m, n, v);
      MergeOneStep(w, vs, count, init, m, n, v, MergeOne(w, m, n, v));
    }
    FoldInvariant(Step(w), vs, count, batch, p);
  }

  lemma MergeNothing<R(!new), K(!new)>(w: View<R, K>, vs: seq<R>, count: int)
    requires Lawful(w) && DistinctKeys(w, vs)
    ensures MergeOf(w, vs, count, [], vs)
  {
  }

  /** The persisted list: the newest hundred of that result, newest first. */
  lemma MergedSpec<R(!new), K>(w: View<R, K>, vs: seq<R>, count: int, batch: seq<R>)
    ensures var all, kept := MergeAll(w, vs, count, batch), Merged(w, vs, count, batch);
            && Sorted(kept, w.seenOf)
            && |kept| <= MAX_VIOLATION_RECORDS
            && (|kept| < |all| ==> |kept| == MAX_VIOLATION_RECORDS)
            && multiset(kept) <= multiset(all)
            && forall r, d :: r in kept && d in multiset(all) - multiset(kept) ==> w.Seen(d) <= w.Seen(r)
  {
    var all := MergeAll(w, vs, count, batch);
    var sorted := Sort(all, w.seenOf);
    SortLength(all, w.seenOf);
    TrimKeepsNewest(sorted, w.seenOf);
    var kept := Trim(sorted);
    var dropped := sorted[|kept|..];
    assert sorted == kept + dropped;
    assert multiset(all) - multiset(kept) == multiset(dropped);
    forall r, d | r in kept && d in dropped
      ensures w.Seen(d) <= w.Seen(r)
    {
      var i :| 0 <= i < |kept| && kept[i] == r;
      var j :| 0 <= j < |dropped| && dropped[j] == d;
      assert sorted[i] == r && sorted[|kept| + j] == d;
      assert w.Seen(sorted[i]) >= w.Seen(sorted[|kept| + j]);
    }
  }

  /** Fresh IDs: new records take IDs from the batch's range, old ones keep theirs. */
  lemma MergeIds<R(!new), K(!new)>(w: View<R, K>, vs: seq<R>, count: int, batch: seq<R>, m: seq<R>)
    requires Lawful(w) && MergeOf(w, vs, count, batch, m)
    ensures forall i :: 0 <= i < |vs| ==> w.Id(m[i]) == w.Id(vs[i])
    ensures forall i :: |vs| <= i < |m| ==> count <= w.Id(m[i]) < count + |batch|
    ensures forall i, j :: |vs| <= i < j < |m| ==> w.Id(m[i]) < w.Id(m[j])
  {
    forall i | 0 <= i < |vs|
      ensures w.Id(m[i]) == w.Id(vs[i])
    {
      assert m[i] == w.WithSeen(vs[i], w.Seen(m[i]));
    }
    forall i | |vs| <= i < |m|
      ensures count <= w.Id(m[i]) < count + |batch|
    {
      var j := OpeningOf(w, vs, count, batch, m[i]);
    }
  }

  // ----- the specification leaves one answer -----

  lemma LatestUnique<R(!new), K(!new)>(w: View<R, K>, vs: seq<R>, batch: seq<R>, r: R, r': R)
    requires w.Key(r) == w.Key(r') && Latest(w, vs, batch, r) && Latest(w, vs, batch, r')
    ensures w.Seen(r) == w.Seen(r')
  {
  }

  lemma SameOpening<R(!new), K(!new)>(w: View<R, K>, vs: seq<R>, count: int, batch: seq<R>, r: R, r': R)
    requires Lawful(w) && Opened(w, vs, count, batch, r) && Opened(w, vs, count, batch, r')
    requires Latest(w, vs, batch, r) && Latest(w, vs, batch, r') && w.Id(r) == w.Id(r')
    ensures r == r'
  {
    var j := OpeningOf(w, vs, count, batch, r);
    var k := OpeningOf(w, vs, count, batch, r');
    LatestUnique(w, vs, batch, r, r');
  }

  lemma SightedOnce<R, K>(w: View<R, K>, vs: seq<R>, batch: seq<R>, i: int, j: int)
    requires FirstSighting(w, vs, batch, i) && FirstSighting(w, vs, batch, j) && w.Key(batch[i]) == w.Key(batch[j])
    ensures i == j
  {
  }

  /** The record of a new violation is new, with the same ID, in every result. */
  lemma OpenedInBoth<R(!new), K(!new)>(w: View<R, K>, vs: seq<R>, count: int, batch: seq<R>, r: R, m': seq<R>)
    returns (k: nat)
    requires Lawful(w) && Opened(w, vs, count, batch, r)
    requires AllKept(w, vs, m') && AllOpened(w, vs, count, batch, m') && AllPresent(w, batch, m')
    ensures |vs| <= k < |m'| && w.Id(m'[k]) == w.Id(r)
  {
    var j := OpeningOf(w, vs, count, batch, r);
    assert HasKey(w, m', w.Key(batch[j]));
    k :| k < |m'| && w.Key(m'[k]) == w.Key(batch[j]);
    if k < |vs| { KeyOfKept(w, vs[k], m'[k]); }
    assert k >= |vs| && Opened(w, vs, count, batch, m'[k]);
    var j' := OpeningOf(w, vs, count, batch, m'[k]);
    SightedOnce(w, vs, batch, j, j');
  }

  ghost predicate Increasing(s: seq<int>) { forall i, j :: 0 <= i < j < |s| ==> s[i] < s[j] }

  ghost predicate Includes(a: seq<int>, b: seq<int>) { forall i :: 0 <= i < |a| ==> a[i] in b }

  /** An increasing list is determined by its elements. */
  lemma {:induction false} IncreasingSame(a: seq<int>, b: seq<int>)
    requires Increasing(a) && Increasing(b) && Includes(a, b) && Includes(b, a)
    ensures a == b
  {
    if a != [] {
      assert a[0] in b;
      assert b[0] in a;
      assert a[0] == b[0];
      IncreasingRest(a, b);
      IncreasingRest(b, a);
      IncreasingSame(a[1..], b[1..]);
    }
  }

  lemma IncreasingRest(a: seq<int>, b: seq<int>)
    requires Increasing(a) && Includes(a, b) && a != [] && b != [] && a[0] == b[0]
    ensures Includes(a[1..], b[1..])
  {
    forall i | 0 <= i < |a[1..]|
      ensures a[1..][i] in b[1..]
    {
      assert a[1..][i] == a[i + 1] && a[i + 1] in b && a[i + 1] != b[0];
      assert b == [b[0]] + b[1..];
    }
  }

  ghost function NewIds<R, K>(w: View<R, K>, vs: seq<R>, m: seq<R>): (ids: seq<int>)
    requires |vs| <= |m|
    ensures |ids| == |m| - |vs| && forall i :: 0 <= i < |ids| ==> ids[i] == w.Id(m[|vs| + i])
  {
    seq(|m| - |vs|, i requires 0 <= i < |m| - |vs| => w.Id(m[|vs| + i]))
  }

  lemma SameNewIds<R(!new), K(!new)>(
    w: View<R, K>, vs: seq<R>, count: int, batch: seq<R>, m: seq<R>, m': seq<R>, ids: seq<int>, ids': seq<int>)
    requires Lawful(w) && |vs| <= |m| && AllOpened(w, vs, count, batch, m)
    requires AllKept(w, vs, m') && AllOpened(w, vs, count, batch, m') && AllPresent(w, batch, m')
    requires ids == NewIds(w, vs, m) && ids' == NewIds(w, vs, m')
    ensures Includes(ids, ids')
  {
    forall i | 0 <= i < |ids|
      ensures ids[i] in ids'
    {
      var k := OpenedInBoth(w, vs, count, batch, m[|vs| + i], m');
      assert ids'[k - |vs|] == ids[i];
    }
  }

  lemma OrderedIds<R(!new), K(!new)>(w: View<R, K>, vs: seq<R>, m: seq<R>)
    requires |vs| <= |m| && AllInOrder(w, vs, m)
    ensures Increasing(NewIds(w, vs, m))
  {
  }

  lemma SameKept<R(!new), K(!new)>(w: View<R, K>, vs: seq<R>, batch: seq<R>, m: seq<R>, m': seq<R>, i: nat)
    requires Lawful(w) && AllKept(w, vs, m) && AllKept(w, vs, m') && i < |vs|
    requires Latest(w, vs, batch, m[i]) && Latest(w, vs, batch, m'[i])
    ensures m[i] == m'[i]
  {
    KeyOfKept(w, vs[i], m[i]);
    KeyOfKept(w, vs[i], m'[i]);
    LatestUnique(w, vs, batch, m[i], m'[i]);
  }

  /** The specification determines the merge completely, order included. */
  lemma MergeOfUnique<R(!new), K(!new)>(w: View<R, K>, vs: seq<R>, count: int, batch: seq<R>, m: seq<R>, m': seq<R>)
    requires Lawful(w) && MergeOf(w, vs, count, batch, m) && MergeOf(w, vs, count, batch, m')
    ensures m == m'
  {
    var ids, ids' := NewIds(w, vs, m), NewIds(w, vs, m');
    assert ids == ids' by {
      SameNewIds(w, vs, count, batch, m, m', ids, ids');
      SameNewIds(w, vs, count, batch, m', m, ids', ids);
      OrderedIds(w, vs, m);
      OrderedIds(w, vs, m');
      IncreasingSame(ids, ids');
    }
    forall i | 0 <= i < |m|
      ensures m[i] == m'[i]
    {
      if i < |vs| {
        SameKept(w, vs, batch, m, m', i);
      } else {
        assert ids[i - |vs|] == ids'[i - |vs|];
        SameOpening(w, vs, count, batch, m[i], m'[i]);
      }
    }
  }

  ghost function IdsOf<R, K>(w: View<R, K>, vs: seq<R>): set<int> { set i | 0 <= i < |vs| :: w.Id(vs[i]) }

  /** The active list of a policy: one record per violation and per ID, all IDs issued. */
  ghost predicate Active<R, K>(w: View<R, K>, vs: seq<R>, count: int) {
    && DistinctKeys(w, vs)
    && DistinctBy(w.idOf, vs)
    && forall id :: id in IdsOf(w, vs) ==> 0 <= id < count
  }

  /** Merging keeps the list well formed, and every ID in it was active or is new. */
  lemma MergeAllActive<R(!new), K(!new)>(w: View<R, K>, vs: seq<R>, count: int, batch: seq<R>)
    requires Lawful(w) && Active(w, vs, count) && count >= 0
    ensures var m := MergeAll(w, vs, count, batch);
            Active(w, m, count + |batch|) && forall id :: id in IdsOf(w, m) ==> id in IdsOf(w, vs) || id >= count
  {
    var m := MergeAll(w, vs, count, batch);
    MergeAllSpec(w, vs, count, batch);
    MergeIds(w, vs, count, batch, m);
    forall i | 0 <= i < |m|
      ensures 0 <= w.Id(m[i]) < count + |batch|
      ensures if i < |vs| then w.Id(m[i]) in IdsOf(w, vs) && w.Id(m[i]) < count else w.Id(m[i]) >= count
    {
      if i < |vs| { assert w.Id(vs[i]) in IdsOf(w, vs); }
    }
    forall i, j | 0 <= i < j < |m|
      ensures w.idOf(m[i]) != w.idOf(m[j])
    {
      assert w.Id(m[i]) != w.Id(m[j]) by {
        if j < |vs| { assert w.idOf(vs[i]) != w.idOf(vs[j]); }
      }
    }
  }

  /** Any part of a well-formed list is well formed. */
  lemma ActiveSub<R(!new), K(!new)>(w: View<R, K>, vs: seq<R>, part: seq<R>, count: int)
    requires Active(w, vs, count) && multiset(part) <= multiset(vs)
    ensures Active(w, part, count) && IdsOf(w, part) <= IdsOf(w, vs)
  {
    SubDistinct(w.keyOf, vs, part);
    SubDistinct(w.idOf, vs, part);
    forall i | 0 <= i < |part|
      ensures w.Id(part[i]) in IdsOf(w, vs)
    {
      assert part[i] in vs;
    }
  }

  lemma MergedActive<R(!new), K(!new)>(w: View<R, K>, vs: seq<R>, count: int, batch: seq<R>)
    requires Lawful(w) && Active(w, vs, count) && count >= 0
    ensures var m := Merged(w, vs, count, batch);
            Active(w, m, count + |batch|) && forall id :: id in IdsOf(w, m) ==> id in IdsOf(w, vs) || id >= count
  {
    MergeAllActive(w, vs, count, batch);
    MergedSpec(w, vs, count, batch);
    ActiveSub(w, MergeAll(w, vs, count, batch), Merged(w, vs, count, batch), count + |batch|);
  }

  // ----- one batch or two -----

  lemma {:induction false} FoldAppend<R>(
    step: (seq<R>, int, R) -> seq<R>, vs: seq<R>, count: int, a: seq<R>, b: seq<R>)
    ensures Fold(step, vs, count, a + b) == Fold(step, Fold(step, vs, count, a), count + |a|, b)
  {
    if b == [] {
      assert a + b == a;
    } else {
      FoldAppend(step, vs, count, a, b[..|b| - 1]);
      assert (a + b)[..|a + b| - 1] == a + b[..|b| - 1];
    }
  }

  lemma MergeOneDistinct<R(!new), K(!new)>(w: View<R, K>, m: seq<R>, n: int, v: R)
    requires Lawful(w) && DistinctKeys(w, m)
    ensures DistinctKeys(w, MergeOne(w, m, n, v))
  {
    MergeOneEffect(w, m, n, v);
    KeptStep(w, [], m, n, v, MergeOne(w, m, n, v));
  }

  lemma FindPermuted<R(!new), K(!new)>(w: View<R, K>, s: seq<R>, t: seq<R>, k: K)
    requires multiset(s) == multiset(t) && DistinctKeys(w, s)
    ensures var i, j := Find(w, s, k, |s|), Find(w, t, k, |t|);
            (i < 0 <==> j < 0) && (i >= 0 ==> s[i] == t[j])
  {
    SubMember(s, t);
    SubMember(t, s);
    var i, j := Find(w, s, k, |s|), Find(w, t, k, |t|);
    if i >= 0 { assert s[i] in t; }
    if j >= 0 { assert t[j] in s; }
    if i >= 0 && j >= 0 { CountOnce(w.keyOf, s, s[i], t[j]); }
  }

  /** The order of the list does not matter to what is merged into it. */
  lemma MergeOnePermuted<R(!new), K(!new)>(w: View<R, K>, s: seq<R>, t: seq<R>, count: int, v: R)
    requires multiset(s) == multiset(t) && DistinctKeys(w, s)
    ensures multiset(MergeOne(w, s, count, v)) == multiset(MergeOne(w, t, count, v))
  {
    FindPermuted(w, s, t, w.Key(v));
  }

  lemma {:induction false} FoldPermuted<R(!new), K(!new)>(
    w: View<R, K>, step: (seq<R>, int, R) -> seq<R>, s: seq<R>, t: seq<R>, count: int, batch: seq<R>)
    requires multiset(s) == multiset(t) && DistinctKeys(w, s)
    requires forall a, b, n, v {:trigger step(a, n, v), step(b, n, v)} ::
               multiset(a) == multiset(b) && DistinctKeys(w, a) ==>
                 multiset(step(a, n, v)) == multiset(step(b, n, v)) && DistinctKeys(w, step(a, n, v))
    ensures multiset(Fold(step, s, count, batch)) == multiset(Fold(step, t, count, batch))
    ensures DistinctKeys(w, Fold(step, s, count, batch))
  {
    if batch != [] {
      FoldPermuted(w, step, s, t, count, batch[..|batch| - 1]);
    }
  }

  lemma MergeAllPermuted<R(!new), K(!new)>(w: View<R, K>, s: seq<R>, t: seq<R>, count: int, batch: seq<R>)
    requires Lawful(w) && multiset(s) == multiset(t) && DistinctKeys(w, s)
    ensures multiset(MergeAll(w, s, count, batch)) == multiset(MergeAll(w, t, count, batch))
    ensures DistinctKeys(w, MergeAll(w, s, count, batch))
  {
    forall a, b, n, v {:trigger Step(w)(a, n, v), Step(w)(b, n, v)} | multiset(a) == multiset(b) && DistinctKeys(w, a)
      ensures multiset(Step(w)(a, n, v)) == multiset(Step(w)(b, n, v)) && DistinctKeys(w, Step(w)(a, n, v))
    {
      MergeOnePermuted(w, a, b, n, v);
      MergeOneDistinct(w, a, n, v);
    }
    FoldPermuted(w, Step(w), s, t, count, batch);
  }

  lemma MergeAllGrows<R(!new), K(!new)>(w: View<R, K>, vs: seq<R>, count: int, batch: seq<R>)
    requires Lawful(w) && DistinctKeys(w, vs)
    ensures |vs| <= |MergeAll(w, vs, count, batch)|
  {
    MergeAllSpec(w, vs, count, batch);
  }

  lemma MergedUntrimmed<R(!new), K>(w: View<R, K>, vs: seq<R>, count: int, batch: seq<R>)
    requires |MergeAll(w, vs, count, batch)| <= MAX_VIOLATION_RECORDS
    ensures multiset(Merged(w, vs, count, batch)) == multiset(MergeAll(w, vs, count, batch))
  {
    SortLength(MergeAll(w, vs, count, batch), w.seenOf);
  }

  /** Merge is a batch homomorphism: as long as at most one hundred violations are
      involved, two syncs leave the same records, with the same IDs and times, as one
      sync with both batches. */
  lemma MergeHomomorphism<R(!new), K(!new)>(w: View<R, K>, vs: seq<R>, count: int, a: seq<R>, b: seq<R>)
    requires Lawful(w) && DistinctKeys(w, vs)
    requires |MergeAll(w, vs, count, a + b)| <= MAX_VIOLATION_RECORDS
    ensures multiset(Merged(w, Merged(w, vs, count, a), count + |a|, b)) == multiset(Merged(w, vs, count, a + b))
  {
    var first := MergeAll(w, vs, count, a);
    FoldAppend(Step(w), vs, count, a, b);
    assert MergeAll(w, vs, count, a + b) == MergeAll(w, first, count + |a|, b);
    MergeAllPermuted(w, vs, vs, count, a);
    MergeAllGrows(w, first, count + |a|, b);
    MergedUntrimmed(w, vs, count, a);
    MergedPermuted(w, first, Merged(w, vs, count, a), count + |a|, b);
    MergedUntrimmed(w, vs, count, a + b);
  }

  lemma MergedPermuted<R(!new), K(!new)>(w: View<R, K>, s: seq<R>, t: seq<R>, count: int, batch: seq<R>)
    requires Lawful(w) && multiset(s) == multiset(t) && DistinctKeys(w, s)
    requires |MergeAll(w, s, count, batch)| <= MAX_VIOLATION_RECORDS
    ensures multiset(Merged(w, t, count, batch)) == multiset(MergeAll(w, s, count, batch))
  {
    MergeAllPermuted(w, s, t, count, batch);
    assert |multiset(MergeAll(w, s, count, batch))| == |multiset(MergeAll(w, t, count, batch))|;
    MergedUntrimmed(w, t, count, batch);
  }
}
