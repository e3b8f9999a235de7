/** What a sync cycle makes of one observation that is attributed to a policy. */
module Recording {
  import opened Api
  import opened Newest
  import opened Seqs
  import opened Merge
  import opened Recompute
  import opened Ledger
  import opened Ownership
  import opened Attribution
  import opened StatusSync

  /** What became of the merged record r of a violation: it is active, or allowed by the
      policy, or acknowledged now, or trimmed as no newer than a hundred others. */
  ghost predicate Recorded(
    fmt: Formatter, p: Policy, batch: seq<ViolationRecord>, acks: map<int, AckInfo>, r: ViolationRecord)
  {
    var merged := MergedOf(p.status, batch);
    || r in Remaining(fmt, p, batch, acks)
    || Allowed(fmt, p.spec, r)
    || r in Taken(fmt, p, batch, acks)
    || (|merged| == MAX_VIOLATION_RECORDS &&
        forall i :: 0 <= i < |merged| ==> r.info.timestamp <= merged[i].info.timestamp)
  }

  lemma MergedIsRecorded(
    fmt: Formatter, p: Policy, batch: seq<ViolationRecord>, acks: map<int, AckInfo>, r: ViolationRecord)
    requires r in MergedOf(p.status, batch)
    ensures Recorded(fmt, p, batch, acks, r)
  {
    var merged, uncleared := MergedOf(p.status, batch), Uncleared(fmt, p, batch);
    var k :| 0 <= k < |merged| && merged[k] == r;
    if !Allowed(fmt, p.spec, r) {
      FilterKeeps(merged, Kept(fmt, p.spec), k);
      var j :| 0 <= j < |uncleared| && uncleared[j] == r;
      if r.id in acks {
        FilterKeeps(uncleared, Named(acks), j);
      } else {
        FilterKeeps(uncleared, Unnamed(acks), j);
      }
    }
  }

  lemma TrimmedIsRecorded(
    fmt: Formatter, p: Policy, batch: seq<ViolationRecord>, acks: map<int, AckInfo>, r: ViolationRecord)
    requires r in MergeAll(Violations(), p.status.violations, p.status.violationCount, batch)
    requires r !in MergedOf(p.status, batch)
    ensures Recorded(fmt, p, batch, acks, r)
  {
    var w, merged := Violations(), MergedOf(p.status, batch);
    var all := MergeAll(w, p.status.violations, p.status.violationCount, batch);
    MergedSpec(w, p.status.violations, p.status.violationCount, batch);
    assert r in multiset(all) - multiset(merged);
    assert multiset(all) != multiset(merged);
    SortLength(all, w.seenOf);
    assert |merged| < |all|;
    forall i | 0 <= i < |merged|
      ensures r.info.timestamp <= merged[i].info.timestamp
    {
      assert merged[i] in merged;
      assert w.Seen(r) <= w.Seen(merged[i]);
    }
  }

  /** The untrimmed merge holds a record of every observation, no older than it. */
  lemma HasRecord<R(!new), K(!new)>(w: View<R, K>, vs: seq<R>, count: int, batch: seq<R>, j: nat) returns (r: R)
    requires Lawful(w) && DistinctKeys(w, vs) && j < |batch|
    ensures r in MergeAll(w, vs, count, batch) && w.Key(r) == w.Key(batch[j]) && w.Seen(r) >= w.Seen(batch[j])
  {
    var m := MergeAll(w, vs, count, batch);
    MergeAllSpec(w, vs, count, batch);
    assert HasKey(w, m, w.Key(batch[j]));
    var i :| 0 <= i < |m| && w.Key(m[i]) == w.Key(batch[j]);
    r := m[i];
  }

  /** Every observation of a batch has a merged record of its violation, no older than it,
      and that record is accounted for. */
  lemma BatchIsRecorded(
    fmt: Formatter, p: Policy, batch: seq<ViolationRecord>, acks: map<int, AckInfo>, j: nat)
    returns (r: ViolationRecord)
    requires DistinctKeys(Violations(), p.status.violations) && j < |batch|
    ensures SameViolation(r.info, batch[j].info) && r.info.timestamp >= batch[j].info.timestamp
    ensures Recorded(fmt, p, batch, acks, r)
  {
    ViolationsLawful();
    r := HasRecord(Violations(), p.status.violations, p.status.violationCount, batch, j);
    SameKeyIff(r, batch[j]);
    if r in MergedOf(p.status, batch) {
      MergedIsRecorded(fmt, p, batch, acks, r);
    } else {
      TrimmedIsRecorded(fmt, p, batch, acks, r);
    }
  }

  /** The record is one of the observed flow, no older than it, and names the policy. */
  ghost predicate RecordOf(r: ViolationRecord, obs: Observation, k: NamespacedName) {
    && SameEndpoint(r.info.source, obs.info.source) && SameEndpoint(r.info.dest, obs.info.dest)
    && r.info.protocol == obs.info.protocol && r.info.dstPort == obs.info.dstPort && r.info.action == obs.info.action
    && r.info.denyingNamespace == k.namespace && r.info.denyingName == k.name
    && r.info.timestamp >= obs.info.timestamp
  }

  /** An observation attributed to a policy whose status patch is not rejected is in its
      batch, is counted, and has a record in the status that is persisted, unless the policy
      allows the flow, the violation is acknowledged now, or a hundred others are as new. */
  lemma AttributedIsRecorded(
    fmt: Formatter, before: LedgerMap, drained: seq<Observation>, policies: map<NamespacedName, seq<OwnerRef>>,
    live: nat -> Live, patching: NamespacedName -> Patching, verdicts: seq<Verdict>, groups: Groups,
    steps: map<NamespacedName, Step>, after: LedgerMap, i: nat, key: NamespacedName) returns (r: ViolationRecord)
    requires CycleStep(fmt, before, drained, policies, live, patching, verdicts, groups, steps, after)
    requires key in before && Sound(before[key]) && patching(key).outcome != Rejected
    requires i < |drained| && |verdicts| == |drained| && verdicts[i] == Attributed(key)
    ensures var p, status, batch := before[key].policy, after[key].policy.status, GroupIn(groups, key);
            && (exists b :: b in batch && Describes(b, drained[i], key)) && steps[key].Sync?
            && status.violationCount == p.status.violationCount + |batch|
            && status.violations == Remaining(fmt, p, batch, steps[key].acks)
            && RecordOf(r, drained[i], key) && Recorded(fmt, p, batch, steps[key].acks, r)
  {
    var batch := GroupIn(groups, key);
    var idx := GroupIsSubsequence(drained, verdicts, key, |drained|);
    var j :| 0 <= j < |idx| && idx[j] == i;
    assert batch[j] in batch && Describes(batch[j], drained[i], key);
    assert StepRel(fmt, groups, patching)(key, before[key], steps[key], after[key]);
    SyncOutcome(fmt, before[key], steps[key]);
    r := BatchIsRecorded(fmt, before[key].policy, batch, steps[key].acks, j);
  }
}
