/** What RecomputeStatus guarantees: nothing is lost, nothing that should have left
    stays, a second run changes nothing, and when acknowledgements survive the trim. */
module RecomputeLaws {
  import opened Api
  import opened Newest
  import opened Seqs
  import opened Merge
  import opened Recompute

  /** The merged records split exactly into active, cleared and acknowledged ones. */
  lemma RecomputePartition(fmt: Formatter, p: Policy, batch: seq<ViolationRecord>, now: int, acks: map<int, AckInfo>)
    ensures var merged := MergedOf(p.status, batch);
            && multiset(merged) == multiset(Recomputed(fmt, p, batch, now, acks).status.violations) +
                                   multiset(Filter(merged, Cleared(fmt, p.spec))) +
                                   multiset(Taken(fmt, p, batch, acks))
            && |Returned(fmt, p, batch, now, acks)| == |Taken(fmt, p, batch, acks)|
            && forall i :: 0 <= i < |Taken(fmt, p, batch, acks)| ==>
                             Returned(fmt, p, batch, now, acks)[i].violation == Taken(fmt, p, batch, acks)[i]
  {
    var merged := MergedOf(p.status, batch);
    FilterPartition(merged, Kept(fmt, p.spec), Cleared(fmt, p.spec));
    FilterPartition(Uncleared(fmt, p, batch), Unnamed(acks), Named(acks));
  }

  /** No active record is allowed by the policy or named by an acknowledge annotation,
      every acknowledged one is named by an annotation that is then consumed, and the
      reported count is the length of the list. */
  lemma RecomputeLeavesNoneDue(
    fmt: Formatter, p: Policy, batch: seq<ViolationRecord>, now: int, acks: map<int, AckInfo>)
    requires AckChoice(p.annotations, acks)
    ensures var q := Recomputed(fmt, p, batch, now, acks);
            && q.status.activeViolationCount == |q.status.violations|
            && q.status.violationCount == p.status.violationCount + |batch|
            && q.status.observedGeneration == p.generation && q.status.conditions == p.status.conditions
            && q.key == p.key && q.uid == p.uid && q.spec == p.spec && q.labels == p.labels
            && (forall i :: 0 <= i < |q.status.violations| ==>
                              var v := q.status.violations[i];
                              !Allowed(fmt, p.spec, v) && forall k :: k in p.annotations ==> AckId(k) != Some(v.id))
            && (forall i :: 0 <= i < |Taken(fmt, p, batch, acks)| ==>
                              var v := Taken(fmt, p, batch, acks)[i];
                              !Allowed(fmt, p.spec, v) && v.id in acks && acks[v.id].annotation !in q.annotations)
  {
    var uncleared := Uncleared(fmt, p, batch);
    FilterMember(MergedOf(p.status, batch), Kept(fmt, p.spec));
    FilterMember(uncleared, Unnamed(acks));
    FilterMember(uncleared, Named(acks));
    var taken := Taken(fmt, p, batch, acks);
    forall i | 0 <= i < |taken|
      ensures !Allowed(fmt, p.spec, taken[i]) && acks[taken[i].id].annotation in Consumed(taken, acks)
    {
      assert taken[i] in uncleared;
      var j :| 0 <= j < |uncleared| && uncleared[j] == taken[i];
      assert Kept(fmt, p.spec)(uncleared[j]);
    }
    var active := Remaining(fmt, p, batch, acks);
    forall i | 0 <= i < |active|
      ensures !Allowed(fmt, p.spec, active[i]) && forall k :: k in p.annotations ==> AckId(k) != Some(active[i].id)
    {
      assert active[i] in uncleared;
      var j :| 0 <= j < |uncleared| && uncleared[j] == active[i];
      assert Kept(fmt, p.spec)(uncleared[j]);
      assert Unnamed(acks)(active[i]);
    }
  }

  // ----- a second run -----

  lemma RemainingSorted(fmt: Formatter, p: Policy, batch: seq<ViolationRecord>, acks: map<int, AckInfo>)
    ensures var active := Remaining(fmt, p, batch, acks);
            Sorted(active, Violations().seenOf) && |active| <= MAX_VIOLATION_RECORDS
  {
    var w := Violations();
    var merged, uncleared := MergedOf(p.status, batch), Uncleared(fmt, p, batch);
    MergedSpec(w, p.status.violations, p.status.violationCount, batch);
    FilterToDescending(merged, Kept(fmt, p.spec), w.seenOf, |merged|);
    FilterToDescending(uncleared, Unnamed(acks), w.seenOf, |uncleared|);
    FilterMember(merged, Kept(fmt, p.spec));
    FilterMember(uncleared, Unnamed(acks));
  }

  lemma MergeNothingIntoSorted(vs: seq<ViolationRecord>, count: int)
    requires Sorted(vs, Violations().seenOf) && |vs| <= MAX_VIOLATION_RECORDS
    ensures Merged(Violations(), vs, count, []) == vs
  {
    SortOfSorted(vs, Violations().seenOf);
  }

  /** Fewer annotations name fewer violations, whichever duplicates are chosen. */
  lemma FewerNamed(a: map<string, string>, b: map<string, string>, acks: map<int, AckInfo>, acks': map<int, AckInfo>)
    requires AckChoice(a, acks) && AckChoice(b, acks') && b.Keys <= a.Keys
    ensures acks'.Keys <= acks.Keys
  {
    forall id | id in acks'
      ensures id in acks
    {
      assert AckId(acks'[id].annotation) == Some(id);
    }
  }

  lemma NothingNamed(active: seq<ViolationRecord>, acks: map<int, AckInfo>, acks': map<int, AckInfo>)
    requires acks'.Keys <= acks.Keys && forall i :: 0 <= i < |active| ==> Unnamed(acks)(active[i])
    ensures Filter(active, Unnamed(acks')) == active && Filter(active, Named(acks')) == []
  {
    FilterAll(active, Unnamed(acks'));
    FilterNone(active, Named(acks'));
  }

  /** A second run merges, clears and takes nothing. */
  lemma SecondRun(
    fmt: Formatter, p: Policy, batch: seq<ViolationRecord>, now: int, acks: map<int, AckInfo>, acks': map<int, AckInfo>)
    requires AckChoice(p.annotations, acks) && acks'.Keys <= acks.Keys
    ensures var q := Recomputed(fmt, p, batch, now, acks);
            Remaining(fmt, q, [], acks') == q.status.violations && Taken(fmt, q, [], acks') == []
  {
    var q := Recomputed(fmt, p, batch, now, acks);
    var active := q.status.violations;
    RemainingSorted(fmt, p, batch, acks);
    MergeNothingIntoSorted(active, q.status.violationCount);
    RecomputeLeavesNoneDue(fmt, p, batch, now, acks);
    FilterAll(active, Kept(fmt, p.spec));
    assert Uncleared(fmt, q, []) == active;
    FilterMember(Uncleared(fmt, p, batch), Unnamed(acks));
    NothingNamed(active, acks, acks');
  }

  /** Recompute is idempotent: running it again, with no new observations and the
      annotations that are left, at any time and for any choice among duplicate
      annotations, acknowledges nothing and changes nothing. */
  lemma RecomputeIdempotent(
    fmt: Formatter, p: Policy, batch: seq<ViolationRecord>, now: int, acks: map<int, AckInfo>,
    now': int, acks': map<int, AckInfo>)
    requires AckChoice(p.annotations, acks)
    requires AckChoice(Recomputed(fmt, p, batch, now, acks).annotations, acks')
    ensures var q := Recomputed(fmt, p, batch, now, acks);
            Recomputed(fmt, q, [], now', acks') == q && Returned(fmt, q, [], now', acks') == []
  {
    var q := Recomputed(fmt, p, batch, now, acks);
    FewerNamed(p.annotations, q.annotations, acks, acks');
    SecondRun(fmt, p, batch, now, acks, acks');
    StoredAcksStable(fmt, p, batch, now, acks, q, now', acks');
    assert q.annotations - Consumed([], acks') == q.annotations;
  }

  lemma StoredAcksStable(
    fmt: Formatter, p: Policy, batch: seq<ViolationRecord>, now: int, acks: map<int, AckInfo>,
    q: Policy, now': int, acks': map<int, AckInfo>)
    requires q.status.acknowledged == StoredAcks(fmt, p, batch, now, acks)
    requires Taken(fmt, q, [], acks') == [] && acks'.Keys <= acks.Keys
    ensures StoredAcks(fmt, q, [], now', acks') == q.status.acknowledged
  {
    var stored := q.status.acknowledged;
    assert stored + [] == stored;
    if acks' != map[] {
      assert acks'.Keys == {} ==> acks' == map[];
      assert acks.Keys != {};
      TrimKeepsNewest(Sort(p.status.acknowledged + Returned(fmt, p, batch, now, acks), AckedAt()), AckedAt());
      SortOfSorted(stored, AckedAt());
    }
  }

  // ----- when acknowledgements survive -----

  /** How many stored acknowledgements are not older than `now`. */
  ghost function NotOlderCount(stored: seq<Acknowledgement>, now: int): nat {
    FirstOlder(Sort(stored, AckedAt()), AckedAt(), now, 0)
  }

  lemma ReturnedStamped(fmt: Formatter, p: Policy, batch: seq<ViolationRecord>, now: int, acks: map<int, AckInfo>)
    ensures forall i :: 0 <= i < |Returned(fmt, p, batch, now, acks)| ==>
                          AckedAt()(Returned(fmt, p, batch, now, acks)[i]) == now
    ensures |Returned(fmt, p, batch, now, acks)| <= MAX_VIOLATION_RECORDS
  {
    var w := Violations();
    MergedSpec(w, p.status.violations, p.status.violationCount, batch);
    FilterMember(MergedOf(p.status, batch), Kept(fmt, p.spec));
    FilterMember(Uncleared(fmt, p, batch), Named(acks));
  }

  /** The stored list after the step: the entries not older than now, then the new
      acknowledgements in order, then the older entries, cut at one hundred. */
  lemma StoredAcksLayout(fmt: Formatter, p: Policy, batch: seq<ViolationRecord>, now: int, acks: map<int, AckInfo>)
    requires acks != map[]
    ensures var sorted := Sort(p.status.acknowledged, AckedAt());
            var n := NotOlderCount(p.status.acknowledged, now);
            StoredAcks(fmt, p, batch, now, acks) ==
            Trim(sorted[..n] + Returned(fmt, p, batch, now, acks) + sorted[n..])
  {
    ReturnedStamped(fmt, p, batch, now, acks);
    SortAppendBatch(p.status.acknowledged, Returned(fmt, p, batch, now, acks), AckedAt(), now);
  }

  /** All acknowledgements of a step survive the trim exactly when they fit beside the
      stored entries that are not older than the step. */
  lemma AcknowledgementsSurviveIff(
    fmt: Formatter, p: Policy, batch: seq<ViolationRecord>, now: int, acks: map<int, AckInfo>)
    requires acks != map[] && Returned(fmt, p, batch, now, acks) != []
    requires DistinctBy(AckedId(), p.status.acknowledged + Returned(fmt, p, batch, now, acks))
    ensures var returned, stored := Returned(fmt, p, batch, now, acks), StoredAcks(fmt, p, batch, now, acks);
            (forall i :: 0 <= i < |returned| ==> returned[i] in stored) <==>
            NotOlderCount(p.status.acknowledged, now) + |returned| <= MAX_VIOLATION_RECORDS
  {
    var returned := Returned(fmt, p, batch, now, acks);
    var sorted := Sort(p.status.acknowledged, AckedAt());
    var n := NotOlderCount(p.status.acknowledged, now);
    StoredAcksLayout(fmt, p, batch, now, acks);
    SurviveIff(sorted[..n], returned, sorted[n..]) by {
      LayoutDistinct(p.status.acknowledged, returned, sorted, n);
    }
  }

  lemma LayoutDistinct(
    stored: seq<Acknowledgement>, returned: seq<Acknowledgement>, sorted: seq<Acknowledgement>, n: nat)
    requires DistinctBy(AckedId(), stored + returned)
    requires multiset(sorted) == multiset(stored) && n <= |sorted|
    ensures DistinctBy(AckedId(), sorted[..n] + returned + sorted[n..])
  {
    assert sorted == sorted[..n] + sorted[n..];
    var layout := sorted[..n] + returned + sorted[n..];
    assert multiset(layout) == multiset(stored + returned);
    SubDistinct(AckedId(), stored + returned, layout);
  }

  lemma SurviveIff(front: seq<Acknowledgement>, returned: seq<Acknowledgement>, back: seq<Acknowledgement>)
    requires returned != [] && DistinctBy(AckedId(), front + returned + back)
    ensures (forall i :: 0 <= i < |returned| ==> returned[i] in Trim(front + returned + back)) <==>
            |front| + |returned| <= MAX_VIOLATION_RECORDS
  {
    var layout := front + returned + back;
    var kept := Trim(layout);
    if |front| + |returned| <= MAX_VIOLATION_RECORDS {
      assert forall i :: 0 <= i < |returned| ==> kept[|front| + i] == returned[i];
    } else {
      var last := |front| + |returned| - 1;
      assert layout[last] == returned[|returned| - 1];
      assert forall j :: 0 <= j < |kept| ==> AckedId()(layout[j]) != AckedId()(layout[last]);
    }
  }

  lemma NoneNotOlder(stored: seq<Acknowledgement>, now: int)
    requires forall i :: 0 <= i < |stored| ==> stored[i].acknowledgedAt < now
    ensures NotOlderCount(stored, now) == 0
  {
    var sorted := Sort(stored, AckedAt());
    SortLength(stored, AckedAt());
    if sorted != [] { assert sorted[0] in stored; }
  }

  lemma TrimBounds<T>(a: seq<T>, b: seq<T>)
    requires |a| <= MAX_VIOLATION_RECORDS
    ensures a <= Trim(a + b) <= a + b
  {
  }

  /** In particular, when the step is later than every stored entry all its
      acknowledgements survive, and only older entries are dropped. */
  lemma AcknowledgementsSurviveLater(
    fmt: Formatter, p: Policy, batch: seq<ViolationRecord>, now: int, acks: map<int, AckInfo>)
    requires acks != map[]
    requires forall i :: 0 <= i < |p.status.acknowledged| ==> p.status.acknowledged[i].acknowledgedAt < now
    ensures Returned(fmt, p, batch, now, acks) <= StoredAcks(fmt, p, batch, now, acks)
    ensures StoredAcks(fmt, p, batch, now, acks) <=
            Returned(fmt, p, batch, now, acks) + Sort(p.status.acknowledged, AckedAt())
  {
    var sorted, returned := Sort(p.status.acknowledged, AckedAt()), Returned(fmt, p, batch, now, acks);
    NoneNotOlder(p.status.acknowledged, now);
    StoredAcksLayout(fmt, p, batch, now, acks);
    assert sorted[..0] + returned + sorted[0..] == returned + sorted;
    ReturnedStamped(fmt, p, batch, now, acks);
    TrimBounds(returned, sorted);
  }
}
