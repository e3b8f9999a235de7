/** Exactly which acknowledge annotations are inert: those for retired IDs, and those for
    numbers that are no ID. An annotation for an active ID fires at the next sync, and one
    for an ID that was not issued yet lies in wait and acknowledges the violation that will
    get the ID. */
module InertAnnotations {
  import opened Api
  import opened Text
  import opened Newest
  import opened Seqs
  import opened Sums
  import opened Merge
  import opened Recompute
  import opened Ledger
  import Attribution
  import StatusSync
  import TargetIndex

  // ----- the runs the program can have -----

  const MAX_PORT := 65535

  /** The record is one the grouping of observations can put into the policy's batch. */
  ghost predicate Attributable(p: Policy, v: ViolationRecord) {
    exists obs: Observation ::
      && v == StatusSync.ToRecord(obs, p.key) && 0 <= obs.info.dstPort <= MAX_PORT
      && Attribution.Owner(obs, map[p.key := p]) == Attribution.Attributed(p.key)
  }

  /** Edits pass the schema and never lower the generation, and every batch holds records
      attributed to the policy as it then is. */
  ghost predicate Realistic(l: Ledger, s: Step) {
    match s
    case Edit(_, spec, generation) => SchemaAccepts(spec) && generation >= l.policy.generation
    case Sync(batch, _, _, _, _, _, _) => forall i :: 0 <= i < |batch| ==> Attributable(l.policy, batch[i])
  }

  ghost predicate RealisticRun(fmt: Formatter, l: Ledger, run: seq<Step>) {
    ValidRun(fmt, l, run) && forall i :: 0 <= i < |run| ==> Realistic(After(fmt, l, run[..i]), run[i])
  }

  lemma RunSnoc(fmt: Formatter, l: Ledger, run: seq<Step>, s: Step)
    requires RealisticRun(fmt, l, run)
    requires Enabled(After(fmt, l, run), s) && Realistic(After(fmt, l, run), s)
    ensures RealisticRun(fmt, l, run + [s]) && After(fmt, l, run + [s]) == Next(fmt, After(fmt, l, run), s)
  {
    var longer := run + [s];
    assert longer[..|run|] == run;
    forall i | 0 <= i < |longer|
      ensures Enabled(After(fmt, l, longer[..i]), longer[i]) && Realistic(After(fmt, l, longer[..i]), longer[i])
    {
      assert i < |run| ==> longer[..i] == run[..i] && longer[i] == run[i];
    }
  }

  /** In some such run from l, an event for the ID is emitted. */
  ghost predicate CanFire(fmt: Formatter, l: Ledger, id: int) {
    exists run :: RealisticRun(fmt, l, run) && id in AckIdsOf(NewEvents(l, After(fmt, l, run)))
  }

  // ----- a policy whose rules were cleared allows nothing -----

  function WithoutRules(spec: PolicySpec): PolicySpec {
    if spec.kubernetes.Some? then spec.(kubernetes := Some(spec.kubernetes.value.(ingress := [], egress := [])))
    else if spec.istio.Some? then spec.(istio := Some(spec.istio.value.(rules := [])))
    else spec
  }

  /** A schema-valid policy without rules. */
  ghost predicate Bare(p: Policy) {
    p.key.namespace != "" && SchemaAccepts(p.spec) && p.spec == WithoutRules(p.spec)
  }

  lemma BareAllowsNothing(fmt: Formatter, p: Policy, v: ViolationRecord)
    requires Bare(p)
    ensures !Allowed(fmt, p.spec, v)
  {
  }

  function AnnotationFor(id: int): string { ACKNOWLEDGE_PREFIX + FormatInt(id) }

  lemma AnnotationNames(id: int)
    requires 0 <= id < INT64_LIMIT
    ensures AckId(AnnotationFor(id)) == Some(id)
  {
    var k := AnnotationFor(id);
    assert k[..|ACKNOWLEDGE_PREFIX|] == ACKNOWLEDGE_PREFIX && k[|ACKNOWLEDGE_PREFIX|..] == FormatInt(id);
    ParseFormat(id, INT64_LIMIT);
  }

  function Acks(id: int): map<int, AckInfo> { map[id := AckInfo(AnnotationFor(id), "reviewed")] }

  /** A merged violation with the ID is taken, because the policy allows nothing. */
  lemma NamedIsReturned(fmt: Formatter, p: Policy, batch: seq<ViolationRecord>, id: int, k: nat)
    requires forall v :: !Allowed(fmt, p.spec, v)
    requires k < |MergedOf(p.status, batch)| && MergedOf(p.status, batch)[k].id == id
    ensures id in AckIdsOf(Returned(fmt, p, batch, 0, Acks(id)))
  {
    var merged := MergedOf(p.status, batch);
    FilterAll(merged, Kept(fmt, p.spec));
    assert Uncleared(fmt, p, batch) == merged;
    FilterKeeps(merged, Named(Acks(id)), k);
    var taken, returned := Taken(fmt, p, batch, Acks(id)), Returned(fmt, p, batch, 0, Acks(id));
    var i :| 0 <= i < |taken| && taken[i] == merged[k];
    assert returned[i].violation == taken[i];
  }

  // ----- the last two steps: annotate, then sync -----

  lemma EventsAccumulate(l: Ledger, m: Ledger, n: Ledger, id: int)
    requires l.emitted <= m.emitted <= n.emitted && id in AckIdsOf(NewEvents(m, n))
    ensures id in AckIdsOf(NewEvents(l, n))
  {
    var i :| 0 <= i < |NewEvents(m, n)| && NewEvents(m, n)[i].violation.id == id;
    assert NewEvents(l, n)[|m.emitted| - |l.emitted| + i] == NewEvents(m, n)[i];
  }

  function AnnotateStep(p: Policy, id: int): Step {
    Edit(map[AnnotationFor(id) := "reviewed"], p.spec, p.generation)
  }

  function FireStep(p: Policy, id: int, batch: seq<ViolationRecord>): Step {
    Sync(batch, 0, Acks(id), Persisted, p.status.conditions, map[AnnotationFor(id) := "reviewed"], true)
  }

  lemma AnnotatedFires(fmt: Formatter, l: Ledger, m: Ledger, id: int, batch: seq<ViolationRecord>, k: nat)
    requires Sound(m) && Bare(m.policy) && 0 <= id < INT64_LIMIT
    requires l == Next(fmt, m, AnnotateStep(m.policy, id))
    requires k < |MergedOf(m.policy.status, batch)| && MergedOf(m.policy.status, batch)[k].id == id
    ensures Sound(l) && Enabled(l, FireStep(m.policy, id, batch))
    ensures var n := Next(fmt, l, FireStep(m.policy, id, batch));
            m.emitted <= n.emitted && id in AckIdsOf(NewEvents(m, n))
  {
    AnnotationNames(id);
    NextSound(fmt, m, AnnotateStep(m.policy, id));
    forall v ensures !Allowed(fmt, l.policy.spec, v) { BareAllowsNothing(fmt, l.policy, v); }
    NamedIsReturned(fmt, l.policy, batch, id, k);
    PersistedEvents(fmt, l, FireStep(m.policy, id, batch));
    SyncIds(fmt, l, FireStep(m.policy, id, batch));
  }

  lemma RunSnocTwice(fmt: Formatter, l: Ledger, run: seq<Step>, e: Step, s: Step, m: Ledger, a: Ledger)
    requires RealisticRun(fmt, l, run) && m == After(fmt, l, run) && a == Next(fmt, m, e)
    requires Enabled(m, e) && Realistic(m, e) && Enabled(a, s) && Realistic(a, s)
    ensures RealisticRun(fmt, l, run + [e] + [s]) && After(fmt, l, run + [e] + [s]) == Next(fmt, a, s)
  {
    RunSnoc(fmt, l, run, e);
    RunSnoc(fmt, l, run + [e], s);
  }

  lemma BatchStays(m: Policy, a: Policy, batch: seq<ViolationRecord>)
    requires a.key == m.key && a.spec == m.spec && forall i :: 0 <= i < |batch| ==> Attributable(m, batch[i])
    ensures forall i :: 0 <= i < |batch| ==> Attributable(a, batch[i])
  {
    forall i | 0 <= i < |batch|
      ensures Attributable(a, batch[i])
    {
      SameAttributable(m, a, batch[i]);
    }
  }

  /** The last two steps are realistic and lead to an event after the given one. */
  lemma LastSteps(fmt: Formatter, m: Ledger, id: int, batch: seq<ViolationRecord>, k: nat)
    returns (e: Step, s: Step, a: Ledger, n: Ledger)
    requires Sound(m) && Bare(m.policy) && 0 <= id < INT64_LIMIT
    requires forall i :: 0 <= i < |batch| ==> Attributable(m.policy, batch[i])
    requires k < |MergedOf(m.policy.status, batch)| && MergedOf(m.policy.status, batch)[k].id == id
    ensures a == Next(fmt, m, e) && n == Next(fmt, a, s)
    ensures Enabled(m, e) && Realistic(m, e) && Enabled(a, s) && Realistic(a, s)
    ensures m.emitted <= n.emitted && id in AckIdsOf(NewEvents(m, n))
  {
    e, s := AnnotateStep(m.policy, id), FireStep(m.policy, id, batch);
    a := Next(fmt, m, e);
    AnnotatedFires(fmt, a, m, id, batch, k);
    BatchStays(m.policy, a.policy, batch);
    n := Next(fmt, a, s);
  }

  lemma FiresAfter(fmt: Formatter, l: Ledger, run: seq<Step>, m: Ledger, id: int, batch: seq<ViolationRecord>, k: nat)
    requires Sound(l) && RealisticRun(fmt, l, run) && m == After(fmt, l, run) && 0 <= id < INT64_LIMIT
    requires Sound(m) && Bare(m.policy) && forall i :: 0 <= i < |batch| ==> Attributable(m.policy, batch[i])
    requires k < |MergedOf(m.policy.status, batch)| && MergedOf(m.policy.status, batch)[k].id == id
    ensures CanFire(fmt, l, id)
  {
    var e, s, a, n := LastSteps(fmt, m, id, batch, k);
    RunSnocTwice(fmt, l, run, e, s, m, a);
    RunSound(fmt, l, run);
    EventsAccumulate(l, m, n, id);
  }

  /** Attribution looks at the key and the target of a policy only. */
  lemma SameAttributable(p: Policy, q: Policy, v: ViolationRecord)
    requires Attributable(p, v) && p.key == q.key && p.spec == q.spec
    ensures Attributable(q, v)
  {
    var obs :| v == StatusSync.ToRecord(obs, p.key) && 0 <= obs.info.dstPort <= MAX_PORT &&
               Attribution.Owner(obs, map[p.key := p]) == Attribution.Attributed(p.key);
    var s := Attribution.ViolationSubject(obs).value;
    assert TargetIndex.ListByTarget(map[q.key := q], s.namespace, s.ownerKind, s.ownerName, obs.direction) ==
           TargetIndex.ListByTarget(map[p.key := p], s.namespace, s.ownerKind, s.ownerName, obs.direction);
  }

  // ----- observations of the policy's own workload -----

  const NO_LABELS := LabelSelector(map[], [])

  /** A flow between the policy's target and a peer, seen at a time and on a port. */
  function FlowOf(p: Policy, port: int, time: int): Observation {
    var subject := WorkloadRef(p.key.namespace, p.spec.targetRef.kind, p.spec.targetRef.name, "", NO_LABELS);
    var peer := WorkloadRef(p.key.namespace, DEPLOYMENT, "peer", "", NO_LABELS);
    var egress := p.spec.direction == EGRESS;
    Observation(
      ViolationInfo(time, if egress then subject else peer, if egress then peer else subject, "TCP", port, MONITOR,
                    p.key.namespace, p.key.name),
      p.spec.backend, p.spec.direction)
  }

  ghost function Sighting(p: Policy, port: int, time: int): ViolationRecord {
    StatusSync.ToRecord(FlowOf(p, port, time), p.key)
  }

  lemma SightingAttributable(p: Policy, port: int, time: int)
    requires p.key.namespace != "" && TargetPopulated(p.spec) && 0 <= port <= MAX_PORT
    ensures Attributable(p, Sighting(p, port, time))
  {
    var obs := FlowOf(p, port, time);
    var policies := map[p.key := p];
    var targets := TargetIndex.ListByTarget(
                     policies, p.key.namespace, p.spec.targetRef.kind, p.spec.targetRef.name, p.spec.direction);
    assert targets == {p.key};
    assert Attribution.Owner(obs, policies) == Attribution.Attributed(p.key);
  }

  // ----- issuing IDs one sync at a time -----

  function QuietStep(p: Policy, batch: seq<ViolationRecord>): Step {
    Sync(batch, 0, map[], Persisted, p.status.conditions, map[], true)
  }

  /** A sync without annotations counts its batch and changes neither key nor spec. */
  lemma QuietSync(fmt: Formatter, m: Ledger, batch: seq<ViolationRecord>)
    requires Sound(m) && m.policy.annotations == map[]
    ensures Enabled(m, QuietStep(m.policy, batch))
    ensures var n := Next(fmt, m, QuietStep(m.policy, batch));
            && Sound(n) && n.policy.annotations == map[]
            && n.policy.key == m.policy.key && n.policy.spec == m.policy.spec
            && n.policy.status.violationCount == m.policy.status.violationCount + |batch|
  {
    SyncIds(fmt, m, QuietStep(m.policy, batch));
  }

  lemma {:induction false} CountUp(fmt: Formatter, l: Ledger, start: seq<Step>, n: nat) returns (run: seq<Step>)
    requires RealisticRun(fmt, l, start)
    requires var m := After(fmt, l, start); Sound(m) && Bare(m.policy) && m.policy.annotations == map[]
    ensures RealisticRun(fmt, l, run)
    ensures var m, r := After(fmt, l, start), After(fmt, l, run);
            && Sound(r) && Bare(r.policy) && r.policy.annotations == map[]
            && r.policy.status.violationCount == m.policy.status.violationCount + n
  {
    run := start;
    if n > 0 {
      run := CountUp(fmt, l, start, n - 1);
      var r := After(fmt, l, run);
      var batch := [Sighting(r.policy, 1, 0)];
      SightingAttributable(r.policy, 1, 0);
      QuietSync(fmt, r, batch);
      RunSnoc(fmt, l, run, QuietStep(r.policy, batch));
      run := run + [QuietStep(r.policy, batch)];
    }
  }

  // ----- an active ID, and the next ID to be issued -----

  lemma ActiveIsMerged(s: Status, id: int) returns (k: nat)
    requires |s.violations| <= MAX_VIOLATION_RECORDS && id in ActiveIds(s)
    ensures k < |MergedOf(s, [])| && MergedOf(s, [])[k].id == id
  {
    var w := Violations();
    var i :| 0 <= i < |s.violations| && w.Id(s.violations[i]) == id;
    SortLength(s.violations, w.seenOf);
    var sorted := Sort(s.violations, w.seenOf);
    assert MergedOf(s, []) == sorted;
    assert s.violations[i] in sorted;
    k :| k < |sorted| && sorted[k] == s.violations[i];
  }

  /** The newest record of the untrimmed list is kept. */
  lemma NewestIsKept<R(!new), K(!new)>(w: View<R, K>, vs: seq<R>, count: int, batch: seq<R>, i: nat)
    requires i < |MergeAll(w, vs, count, batch)|
    requires var m := MergeAll(w, vs, count, batch);
             forall j :: 0 <= j < |m| && j != i ==> w.Seen(m[j]) < w.Seen(m[i])
    ensures MergeAll(w, vs, count, batch)[i] in Merged(w, vs, count, batch)
  {
    var m := MergeAll(w, vs, count, batch);
    var sorted := Sort(m, w.seenOf);
    SortLength(m, w.seenOf);
    assert m[i] in sorted;
    var k :| 0 <= k < |sorted| && sorted[k] == m[i];
    assert sorted[0] in m;
    var j :| 0 <= j < |m| && m[j] == sorted[0];
    assert k > 0 ==> w.seenOf(sorted[0]) >= w.seenOf(sorted[k]);
    assert j == i;
    assert Merged(w, vs, count, batch)[0] == m[i];
  }

  /** One record of a violation never seen, newer than all, gets the next ID and is kept. */
  lemma OpensNext<R(!new), K(!new)>(w: View<R, K>, vs: seq<R>, count: int, b: R) returns (r: R)
    requires Lawful(w) && DistinctKeys(w, vs) && !HasKey(w, vs, w.Key(b))
    requires forall i :: 0 <= i < |vs| ==> w.Seen(vs[i]) < w.Seen(b)
    ensures r in Merged(w, vs, count, [b]) && w.Id(r) == count
  {
    var m := MergeAll(w, vs, count, [b]);
    MergeAllSpec(w, vs, count, [b]);
    var i := RecordOf(w, vs, count, b, m);
    forall k | 0 <= k < |m| && k != i
      ensures w.Seen(m[k]) < w.Seen(m[i])
    {
      assert w.keyOf(m[k]) != w.keyOf(m[i]);
      OtherIsOlder(w, vs, b, m[k], m[i]);
    }
    NewestIsKept(w, vs, count, [b], i);
    r := m[i];
  }

  lemma RecordOf<R(!new), K(!new)>(w: View<R, K>, vs: seq<R>, count: int, b: R, m: seq<R>) returns (i: nat)
    requires Lawful(w) && AllKept(w, vs, m) && AllOpened(w, vs, count, [b], m) && AllPresent(w, [b], m)
    requires !HasKey(w, vs, w.Key(b))
    ensures i < |m| && w.Key(m[i]) == w.Key(b) && w.Id(m[i]) == count
  {
    assert HasKey(w, m, w.Key([b][0]));
    i :| i < |m| && w.Key(m[i]) == w.Key(b);
    if i < |vs| { KeyOfKept(w, vs[i], m[i]); }
    assert i >= |vs| && Opened(w, vs, count, [b], m[i]);
    var j := OpeningOf(w, vs, count, [b], m[i]);
  }

  lemma OtherIsOlder<R(!new), K(!new)>(w: View<R, K>, vs: seq<R>, b: R, other: R, r: R)
    requires Latest(w, vs, [b], other) && Latest(w, vs, [b], r) && w.Key(r) == w.Key(b) && w.Key(other) != w.Key(b)
    requires forall i :: 0 <= i < |vs| ==> w.Seen(vs[i]) < w.Seen(b)
    ensures w.Seen(other) < w.Seen(r)
  {
    assert [b][0] == b;
  }

  ghost function LatestTime(vs: seq<ViolationRecord>, n: nat): (t: int)
    requires n <= |vs|
    ensures forall i :: 0 <= i < n ==> vs[i].info.timestamp <= t
  {
    if n == 0 then 0
    else
      var rest := LatestTime(vs, n - 1);
      if vs[n - 1].info.timestamp > rest then vs[n - 1].info.timestamp else rest
  }

  ghost function PortsTo(n: nat): (ports: set<int>)
    ensures |ports| == n && forall p :: p in ports ==> 1 <= p <= n
  {
    if n == 0 then {} else PortsTo(n - 1) + {n}
  }

  /** The violation that gets the next ID. */
  lemma NextIsMerged(p: Policy) returns (b: ViolationRecord, k: nat)
    requires p.key.namespace != "" && TargetPopulated(p.spec)
    requires DistinctKeys(Violations(), p.status.violations) && |p.status.violations| <= MAX_VIOLATION_RECORDS
    ensures Attributable(p, b)
    ensures k < |MergedOf(p.status, [b])| && MergedOf(p.status, [b])[k].id == p.status.violationCount
  {
    var w, vs := Violations(), p.status.violations;
    var used := seq(|vs|, i requires 0 <= i < |vs| => vs[i].info.dstPort);
    var port := Unused(used, PortsTo(MAX_VIOLATION_RECORDS + 1), |vs|);
    b := Sighting(p, port, LatestTime(vs, |vs|) + 1);
    SightingAttributable(p, port, LatestTime(vs, |vs|) + 1);
    ViolationsLawful();
    forall i | 0 <= i < |vs|
      ensures w.Key(vs[i]) != w.Key(b)
    {
      assert used[i] == Key(vs[i]).dstPort != Key(b).dstPort;
    }
    var r := OpensNext(w, vs, p.status.violationCount, b);
    k :| k < |MergedOf(p.status, [b])| && MergedOf(p.status, [b])[k] == r;
    assert w.Id(r) == r.id;
  }

  // ----- no run fires what is not an ID -----

  lemma StepEventsParse(fmt: Formatter, l: Ledger, s: Step)
    requires Sound(l) && Enabled(l, s)
    ensures forall id :: id in AckIdsOf(NewEvents(l, Next(fmt, l, s))) ==> id < INT64_LIMIT
  {
    EmitsOnlyAfterPersist(fmt, l, s);
    if s.Sync? && s.outcome == Persisted {
      PersistedEvents(fmt, l, s);
      ReturnedFacts(fmt, l.policy, s.batch, s.now, s.acks);
    }
  }

  lemma {:induction false} EventsParse(fmt: Formatter, l: Ledger, run: seq<Step>)
    requires Sound(l) && ValidRun(fmt, l, run)
    ensures forall id :: id in AckIdsOf(NewEvents(l, After(fmt, l, run))) ==> 0 <= id < INT64_LIMIT
    decreases |run|
  {
    if run != [] {
      var init, last := run[..|run| - 1], run[|run| - 1];
      ValidRunInit(fmt, l, run);
      EventsParse(fmt, l, init);
      RunSound(fmt, l, init);
      RunSound(fmt, l, run);
      var m, n := After(fmt, l, init), After(fmt, l, run);
      StepEventsParse(fmt, m, last);
      NextSound(fmt, m, last);
      EventsSplit(l, m, n);
    }
  }

  lemma EventsSplit(l: Ledger, m: Ledger, n: Ledger)
    requires Sound(n) && l.emitted <= m.emitted <= n.emitted
    ensures forall id :: id in AckIdsOf(NewEvents(l, n)) ==>
                           id >= 0 && (id in AckIdsOf(NewEvents(l, m)) || id in AckIdsOf(NewEvents(m, n)))
  {
    forall id | id in AckIdsOf(NewEvents(l, n))
      ensures id >= 0 && (id in AckIdsOf(NewEvents(l, m)) || id in AckIdsOf(NewEvents(m, n)))
    {
      var i :| 0 <= i < |NewEvents(l, n)| && NewEvents(l, n)[i].violation.id == id;
      var split := |m.emitted| - |l.emitted|;
      assert n.emitted[|l.emitted| + i].violation.id == id;
      assert id in AckIdsOf(n.policy.status.acknowledged) + AckIdsOf(n.emitted);
      if i < split {
        assert NewEvents(l, m)[i].violation.id == id;
      } else {
        assert NewEvents(m, n)[i - split].violation.id == id;
      }
    }
  }

  /** For every number: no run of the program ever emits an event for it if and only if it
      is retired or is no ID, being negative or beyond an int64. */
  lemma InertIffRetired(fmt: Formatter, l: Ledger, id: int)
    requires Sound(l) && SchemaAccepts(l.policy.spec) && l.policy.key.namespace != ""
    ensures !CanFire(fmt, l, id) <==> Retired(l.policy.status, id) || id < 0 || id >= INT64_LIMIT
  {
    if Retired(l.policy.status, id) || id < 0 || id >= INT64_LIMIT {
      forall run | RealisticRun(fmt, l, run)
        ensures id !in AckIdsOf(NewEvents(l, After(fmt, l, run)))
      {
        RunSound(fmt, l, run);
        EventsParse(fmt, l, run);
      }
    } else {
      LiveFires(fmt, l, id);
    }
  }

  /** The first step of every firing run: clear the rules, so that nothing is cleared. */
  lemma ClearRules(fmt: Formatter, l: Ledger) returns (run: seq<Step>, m: Ledger)
    requires Sound(l) && SchemaAccepts(l.policy.spec) && l.policy.key.namespace != ""
    ensures RealisticRun(fmt, l, run) && m == After(fmt, l, run)
    ensures Sound(m) && Bare(m.policy) && m.policy.annotations == map[] && m.policy.status == l.policy.status
  {
    var clear := Edit(map[], WithoutRules(l.policy.spec), l.policy.generation + 1);
    assert RealisticRun(fmt, l, []);
    RunSnoc(fmt, l, [], clear);
    NextSound(fmt, l, clear);
    run, m := [] + [clear], Next(fmt, l, clear);
  }

  /** An ID that is active or still to be issued fires in some run. */
  lemma LiveFires(fmt: Formatter, l: Ledger, id: int)
    requires Sound(l) && SchemaAccepts(l.policy.spec) && l.policy.key.namespace != ""
    requires 0 <= id < INT64_LIMIT && !Retired(l.policy.status, id)
    ensures CanFire(fmt, l, id)
  {
    var run, m := ClearRules(fmt, l);
    if id in ActiveIds(m.policy.status) {
      var k := ActiveIsMerged(m.policy.status, id);
      FiresAfter(fmt, l, run, m, id, [], k);
    } else {
      var longer := CountUp(fmt, l, run, id - m.policy.status.violationCount);
      var r := After(fmt, l, longer);
      var b, k := NextIsMerged(r.policy);
      FiresAfter(fmt, l, longer, r, id, [b], k);
    }
  }
}
