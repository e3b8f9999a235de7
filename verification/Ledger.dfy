/** The violation ledger of one policy over a whole run: each sync recomputes from the
    last persisted object, patches the status, emits acknowledgement events, then
    patches the annotations (processWorkloadNetworkPolicy in
    internal/controller/workloadnetworkpolicystatus_sync.go). Either patch may fail,
    and users may edit annotations and spec at any time. */
module Ledger {
  import opened Api
  import opened Newest
  import opened Seqs
  import opened Merge
  import opened Recompute
  import opened RecomputeLaws

  // ----- JSON merge patches (section 2 of RFC 7396) -----

  /** A field absent from the patch is left alone; lists are replaced whole. */
  datatype StatusPatch = StatusPatch(
    conditions: Option<seq<Condition>>, observedGeneration: Option<int>, violationCount: Option<int>,
    activeViolationCount: Option<int>, violations: Option<seq<ViolationRecord>>,
    acknowledged: Option<seq<Acknowledgement>>)

  function Changed<T(==)>(base: T, new_: T): Option<T> { if base == new_ then None else Some(new_) }

  function Patched<T>(current: T, change: Option<T>): T { if change.None? then current else change.value }

  /** client.MergeFrom(base) evaluated on the new status. */
  function DiffStatus(base: Status, new_: Status): StatusPatch {
    StatusPatch(
      Changed(base.conditions, new_.conditions), Changed(base.observedGeneration, new_.observedGeneration),
      Changed(base.violationCount, new_.violationCount), Changed(base.activeViolationCount, new_.activeViolationCount),
      Changed(base.violations, new_.violations), Changed(base.acknowledged, new_.acknowledged))
  }

  function ApplyStatus(current: Status, patch: StatusPatch): Status {
    Status(
      Patched(current.conditions, patch.conditions), Patched(current.observedGeneration, patch.observedGeneration),
      Patched(current.violationCount, patch.violationCount),
      Patched(current.activeViolationCount, patch.activeViolationCount),
      Patched(current.violations, patch.violations), Patched(current.acknowledged, patch.acknowledged))
  }

  /** null deletes a key, a string sets it. */
  function DiffAnnotations(base: map<string, string>, new_: map<string, string>): map<string, Option<string>> {
    map k | k in base.Keys + new_.Keys && (k !in new_ || k !in base || base[k] != new_[k]) ::
      if k in new_ then Some(new_[k]) else None
  }

  function ApplyAnnotations(current: map<string, string>, patch: map<string, Option<string>>): map<string, string> {
    map k | k in current.Keys + patch.Keys && (k in patch ==> patch[k].Some?) ::
      if k in patch then patch[k].value else current[k]
  }

  // ----- the state machine -----

  /** The persisted object and every acknowledgement event emitted so far. */
  datatype Ledger = Ledger(policy: Policy, emitted: seq<Acknowledgement>)

  /** Unreported: the server applied the patch but the client saw an error. */
  datatype PatchOutcome = Persisted | Rejected | Unreported

  datatype Step =
    | Edit(annotations: map<string, string>, spec: PolicySpec, generation: int)
    | Sync(batch: seq<ViolationRecord>, now: int, acks: map<int, AckInfo>,
           outcome: PatchOutcome, conditions: seq<Condition>,
           annotations: map<string, string>, annotationsPersisted: bool)

  ghost predicate Enabled(l: Ledger, s: Step) {
    match s
    case Edit(_, spec, _) => BackendPopulated(spec) && spec.backend == l.policy.spec.backend
    case Sync(_, _, acks, _, _, _, _) => AckChoice(l.policy.annotations, acks)
  }

  /** One sync. `conditions` and `annotations` are what other writers left in the
      object between the read and the patches. */
  ghost function SyncStep(fmt: Formatter, l: Ledger, s: Step): Ledger
    requires s.Sync?
  {
    var read := l.policy;
    var new_ := Recomputed(fmt, read, s.batch, s.now, s.acks);
    if s.outcome == Rejected then l
    else
      var status := ApplyStatus(read.status.(conditions := s.conditions), DiffStatus(read.status, new_.status));
      if s.outcome == Unreported then l.(policy := read.(status := status))
      else
        var annotations := if s.annotationsPersisted
                           then ApplyAnnotations(s.annotations, DiffAnnotations(read.annotations, new_.annotations))
                           else s.annotations;
        Ledger(read.(status := status, annotations := annotations),
               l.emitted + Returned(fmt, read, s.batch, s.now, s.acks))
  }

  ghost function Next(fmt: Formatter, l: Ledger, s: Step): Ledger {
    match s
    case Edit(annotations, spec, generation) =>
      l.(policy := l.policy.(annotations := annotations, spec := spec, generation := generation))
    case Sync(_, _, _, _, _, _, _) => SyncStep(fmt, l, s)
  }

  ghost function After(fmt: Formatter, l: Ledger, run: seq<Step>): Ledger {
    if run == [] then l else Next(fmt, After(fmt, l, run[..|run| - 1]), run[|run| - 1])
  }

  ghost predicate ValidRun(fmt: Formatter, l: Ledger, run: seq<Step>) {
    forall i :: 0 <= i < |run| ==> Enabled(After(fmt, l, run[..i]), run[i])
  }

  // ----- what the patches do -----

  /** The status patch writes the recomputed status and keeps the conditions another
      controller wrote in the meantime. */
  lemma StatusPatchExact(read: Status, new_: Status, conditions: seq<Condition>)
    requires new_.conditions == read.conditions
    ensures ApplyStatus(read.(conditions := conditions), DiffStatus(read, new_)) == new_.(conditions := conditions)
  {
  }

  /** The annotation patch deletes exactly the consumed annotations and leaves every
      concurrent user edit of another annotation alone. */
  lemma AnnotationPatchExact(read: map<string, string>, consumed: set<string>, current: map<string, string>)
    requires consumed <= read.Keys
    ensures ApplyAnnotations(current, DiffAnnotations(read, read - consumed)) == current - consumed
  {
    var patch := DiffAnnotations(read, read - consumed);
    assert patch.Keys == consumed;
  }

  // ----- the invariant of every reachable ledger -----

  ghost function ActiveIds(s: Status): set<int> { IdsOf(Violations(), s.violations) }

  ghost function AckIdsOf(s: seq<Acknowledgement>): set<int> { set i | 0 <= i < |s| :: s[i].violation.id }

  /** Both lists are newest first and at most a hundred long. */
  ghost predicate Ordered(s: Status) {
    && Sorted(s.violations, Violations().seenOf) && |s.violations| <= MAX_VIOLATION_RECORDS
    && Sorted(s.acknowledged, AckedAt()) && |s.acknowledged| <= MAX_VIOLATION_RECORDS
  }

  /** The IDs of a status and of the events emitted for it. */
  ghost predicate SoundStatus(s: Status, emitted: seq<Acknowledgement>) {
    && s.violationCount >= 0
    && Active(Violations(), s.violations, s.violationCount)
    && DistinctBy(AckedId(), s.acknowledged)
    && DistinctBy(AckedId(), emitted)
    && forall id :: id in AckIdsOf(s.acknowledged) + AckIdsOf(emitted) ==>
                      0 <= id < s.violationCount && id !in ActiveIds(s)
  }

  ghost predicate Sound(l: Ledger) {
    SoundStatus(l.policy.status, l.emitted) && Ordered(l.policy.status) && BackendPopulated(l.policy.spec)
  }

  /** IDs that have left the active list, or were never active, and are issued. */
  ghost predicate Retired(s: Status, id: int) { 0 <= id < s.violationCount && id !in ActiveIds(s) }

  /** The events emitted between two states of one run. */
  ghost function NewEvents(l: Ledger, l': Ledger): seq<Acknowledgement> {
    if |l.emitted| <= |l'.emitted| then l'.emitted[|l.emitted|..] else []
  }

  ghost predicate WasActiveOrNew(s: Status, id: int) { id in ActiveIds(s) || id >= s.violationCount }

  /** A part of the merged list is well formed and holds old active IDs and new ones. */
  lemma PartFacts(s: Status, batch: seq<ViolationRecord>, part: seq<ViolationRecord>)
    requires s.violationCount >= 0 && Active(Violations(), s.violations, s.violationCount)
    requires multiset(part) <= multiset(MergedOf(s, batch))
    ensures Active(Violations(), part, s.violationCount + |batch|)
    ensures forall id :: id in IdsOf(Violations(), part) ==> WasActiveOrNew(s, id)
  {
    ViolationsLawful();
    MergedActive(Violations(), s.violations, s.violationCount, batch);
    ActiveSub(Violations(), MergedOf(s, batch), part, s.violationCount + |batch|);
  }

  lemma RemainingFacts(fmt: Formatter, p: Policy, batch: seq<ViolationRecord>, acks: map<int, AckInfo>)
    requires p.status.violationCount >= 0 && Active(Violations(), p.status.violations, p.status.violationCount)
    ensures var active := Remaining(fmt, p, batch, acks);
            && Active(Violations(), active, p.status.violationCount + |batch|)
            && (forall id :: id in IdsOf(Violations(), active) ==> WasActiveOrNew(p.status, id) && id !in acks)
  {
    FilterSub(MergedOf(p.status, batch), Kept(fmt, p.spec));
    FilterSub(Uncleared(fmt, p, batch), Unnamed(acks));
    FilterMember(Uncleared(fmt, p, batch), Unnamed(acks));
    PartFacts(p.status, batch, Remaining(fmt, p, batch, acks));
  }

  /** The acknowledged IDs are distinct, named, and were active or are new. */
  lemma ReturnedFacts(fmt: Formatter, p: Policy, batch: seq<ViolationRecord>, now: int, acks: map<int, AckInfo>)
    requires p.status.violationCount >= 0 && Active(Violations(), p.status.violations, p.status.violationCount)
    ensures var returned := Returned(fmt, p, batch, now, acks);
            && DistinctBy(AckedId(), returned)
            && (forall id :: id in AckIdsOf(returned) ==>
                               && WasActiveOrNew(p.status, id) && id in acks
                               && 0 <= id < p.status.violationCount + |batch|)
  {
    var taken, returned := Taken(fmt, p, batch, acks), Returned(fmt, p, batch, now, acks);
    FilterSub(MergedOf(p.status, batch), Kept(fmt, p.spec));
    FilterSub(Uncleared(fmt, p, batch), Named(acks));
    FilterMember(Uncleared(fmt, p, batch), Named(acks));
    PartFacts(p.status, batch, taken);
    forall i | 0 <= i < |returned|
      ensures AckedId()(returned[i]) == taken[i].id == Violations().idOf(taken[i])
      ensures taken[i].id in IdsOf(Violations(), taken) && taken[i].id in acks
    {
      assert Violations().Id(taken[i]) in IdsOf(Violations(), taken);
      assert Named(acks)(taken[i]);
    }
  }

  lemma DistinctConcat(a: seq<Acknowledgement>, b: seq<Acknowledgement>)
    requires DistinctBy(AckedId(), a) && DistinctBy(AckedId(), b) && AckIdsOf(a) !! AckIdsOf(b)
    ensures DistinctBy(AckedId(), a + b) && AckIdsOf(a + b) == AckIdsOf(a) + AckIdsOf(b)
  {
    var c := a + b;
    forall i, j | 0 <= i < j < |c|
      ensures AckedId()(c[i]) != AckedId()(c[j])
    {
      if i < |a| <= j {
        assert AckedId()(a[i]) in AckIdsOf(a) && AckedId()(b[j - |a|]) in AckIdsOf(b);
      }
    }
    assert forall i :: 0 <= i < |a| ==> c[i] == a[i];
    assert forall i :: 0 <= i < |b| ==> c[|a| + i] == b[i];
  }

  /** Whatever the outcome and the choice, the stored list keeps part of what it had
      and what was acknowledged now. */
  lemma StoredFacts(fmt: Formatter, p: Policy, batch: seq<ViolationRecord>, now: int, acks: map<int, AckInfo>)
    requires DistinctBy(AckedId(), p.status.acknowledged + Returned(fmt, p, batch, now, acks))
    ensures var stored := StoredAcks(fmt, p, batch, now, acks);
            && DistinctBy(AckedId(), stored)
            && AckIdsOf(stored) <= AckIdsOf(p.status.acknowledged + Returned(fmt, p, batch, now, acks))
  {
    var all, stored := p.status.acknowledged + Returned(fmt, p, batch, now, acks), StoredAcks(fmt, p, batch, now, acks);
    if acks == map[] {
      assert all == stored + Returned(fmt, p, batch, now, acks);
      assert multiset(stored) <= multiset(all);
    } else {
      var sorted := Sort(all, AckedAt());
      assert sorted == stored + sorted[|stored|..];
      assert multiset(stored) <= multiset(sorted);
    }
    SubDistinct(AckedId(), all, stored);
    forall i | 0 <= i < |stored|
      ensures stored[i].violation.id in AckIdsOf(all)
    {
      assert stored[i] in all;
    }
  }

  /** No ID that is stored or emitted as acknowledged, before or now, is still active. */
  lemma AcknowledgedNotActive(fmt: Formatter, l: Ledger, batch: seq<ViolationRecord>, now: int, acks: map<int, AckInfo>)
    requires Sound(l)
    ensures var q := Recomputed(fmt, l.policy, batch, now, acks).status;
            var returned := Returned(fmt, l.policy, batch, now, acks);
            && AckIdsOf(l.policy.status.acknowledged) + AckIdsOf(l.emitted) !! AckIdsOf(returned)
            && forall id :: id in AckIdsOf(l.policy.status.acknowledged) + AckIdsOf(l.emitted) + AckIdsOf(returned) ==>
                              Retired(q, id)
  {
    RemainingFacts(fmt, l.policy, batch, acks);
    ReturnedFacts(fmt, l.policy, batch, now, acks);
  }

  lemma RecomputedOrdered(fmt: Formatter, p: Policy, batch: seq<ViolationRecord>, now: int, acks: map<int, AckInfo>)
    requires Ordered(p.status)
    ensures Ordered(Recomputed(fmt, p, batch, now, acks).status)
  {
    RemainingSorted(fmt, p, batch, acks);
    if acks != map[] {
      TrimKeepsNewest(Sort(p.status.acknowledged + Returned(fmt, p, batch, now, acks), AckedAt()), AckedAt());
    }
  }

  /** A recomputation keeps the IDs sound, whether its events are emitted or not. */
  lemma RecomputedSound(fmt: Formatter, l: Ledger, batch: seq<ViolationRecord>, now: int, acks: map<int, AckInfo>)
    requires Sound(l)
    ensures var q := Recomputed(fmt, l.policy, batch, now, acks).status;
            var returned := Returned(fmt, l.policy, batch, now, acks);
            SoundStatus(q, l.emitted) && SoundStatus(q, l.emitted + returned)
  {
    var p, returned := l.policy, Returned(fmt, l.policy, batch, now, acks);
    AcknowledgedNotActive(fmt, l, batch, now, acks);
    RemainingFacts(fmt, p, batch, acks);
    ReturnedFacts(fmt, p, batch, now, acks);
    DistinctConcat(p.status.acknowledged, returned);
    StoredFacts(fmt, p, batch, now, acks);
    DistinctConcat(l.emitted, returned);
  }

  /** No retired ID comes back or is acknowledged again. */
  lemma RetiredStays(fmt: Formatter, p: Policy, batch: seq<ViolationRecord>, now: int, acks: map<int, AckInfo>, id: int)
    requires p.status.violationCount >= 0 && Active(Violations(), p.status.violations, p.status.violationCount)
    requires Retired(p.status, id)
    ensures Retired(Recomputed(fmt, p, batch, now, acks).status, id)
    ensures id !in AckIdsOf(Returned(fmt, p, batch, now, acks))
  {
    RemainingFacts(fmt, p, batch, acks);
    ReturnedFacts(fmt, p, batch, now, acks);
  }

  /** What a sync leaves in the ledger, for each outcome of the status patch. */
  lemma SyncOutcome(fmt: Formatter, l: Ledger, s: Step)
    requires s.Sync?
    ensures var l' := Next(fmt, l, s);
            var q := Recomputed(fmt, l.policy, s.batch, s.now, s.acks).status;
            var returned := Returned(fmt, l.policy, s.batch, s.now, s.acks);
            && l'.policy.spec == l.policy.spec
            && (s.outcome == Rejected ==> l' == l)
            && (s.outcome != Rejected ==> l'.policy.status == q.(conditions := s.conditions))
            && l'.emitted == (if s.outcome == Persisted then l.emitted + returned else l.emitted)
            && NewEvents(l, l') == if s.outcome == Persisted then returned else []
  {
    StatusPatchExact(l.policy.status, Recomputed(fmt, l.policy, s.batch, s.now, s.acks).status, s.conditions);
    var returned := Returned(fmt, l.policy, s.batch, s.now, s.acks);
    assert (l.emitted + returned)[|l.emitted|..] == returned && l.emitted[|l.emitted|..] == [];
  }

  /** Every event of a sync acknowledges a violation some annotation names, with the value of
      that annotation as its reason and the time of the sync. */
  lemma EventsExplained(fmt: Formatter, l: Ledger, s: Step)
    requires s.Sync? && AckChoice(l.policy.annotations, s.acks)
    ensures forall a :: a in NewEvents(l, Next(fmt, l, s)) ==>
                          && a.violation.id in s.acks && a.acknowledgedAt == s.now
                          && var k := s.acks[a.violation.id].annotation;
                             k in l.policy.annotations && AckId(k) == Some(a.violation.id) &&
                             a.reason == l.policy.annotations[k]
  {
    SyncOutcome(fmt, l, s);
    FilterMember(Uncleared(fmt, l.policy, s.batch), Named(s.acks));
    var taken, returned := Taken(fmt, l.policy, s.batch, s.acks), Returned(fmt, l.policy, s.batch, s.now, s.acks);
    forall i | 0 <= i < |returned|
      ensures returned[i].violation.id in s.acks && returned[i].acknowledgedAt == s.now
      ensures returned[i].reason == s.acks[returned[i].violation.id].reason
    {
      assert Named(s.acks)(taken[i]) && returned[i] == Acknowledge(s.acks, s.now)(taken[i]);
    }
  }

  /** Some new event uses the annotation. */
  ghost predicate UsedBy(events: seq<Acknowledgement>, acks: map<int, AckInfo>, k: string) {
    exists i :: 0 <= i < |events| && events[i].violation.id in acks && acks[events[i].violation.id].annotation == k
  }

  lemma ConsumedIsUsed(fmt: Formatter, p: Policy, batch: seq<ViolationRecord>, now: int, acks: map<int, AckInfo>)
    ensures forall k :: k in Consumed(Taken(fmt, p, batch, acks), acks) <==>
                        UsedBy(Returned(fmt, p, batch, now, acks), acks, k)
  {
    var taken, returned := Taken(fmt, p, batch, acks), Returned(fmt, p, batch, now, acks);
    assert forall i :: 0 <= i < |taken| ==> returned[i].violation == taken[i];
    forall k
      ensures k in Consumed(taken, acks) <==> UsedBy(returned, acks, k)
    {
      if UsedBy(returned, acks, k) {
        var i :| 0 <= i < |returned| && returned[i].violation.id in acks &&
                 acks[returned[i].violation.id].annotation == k;
        assert taken[i].id in acks && acks[taken[i].id].annotation == k;
      }
      if k in Consumed(taken, acks) {
        var i :| 0 <= i < |taken| && taken[i].id in acks && acks[taken[i].id].annotation == k;
        assert returned[i].violation.id in acks && acks[returned[i].violation.id].annotation == k;
      }
    }
  }

  /** What a sync leaves of the annotations that other writers left. */
  lemma SyncAnnotationsLeft(fmt: Formatter, l: Ledger, s: Step)
    requires s.Sync? && s.outcome == Persisted && s.annotationsPersisted && AckChoice(l.policy.annotations, s.acks)
    ensures Next(fmt, l, s).policy.annotations ==
            s.annotations - Consumed(Taken(fmt, l.policy, s.batch, s.acks), s.acks)
  {
    AnnotationPatchExact(l.policy.annotations, Consumed(Taken(fmt, l.policy, s.batch, s.acks), s.acks), s.annotations);
  }

  /** A persisted sync removes exactly the annotations its events used, if the annotation patch
      persists too, and keeps every other annotation with its value, also those written in the
      meantime. A status patch that is rejected or whose answer is lost removes none. */
  lemma SyncAnnotations(fmt: Formatter, l: Ledger, s: Step, k: string)
    requires s.Sync? && AckChoice(l.policy.annotations, s.acks)
    ensures var l' := Next(fmt, l, s);
            var after := l'.policy.annotations;
            if s.outcome != Persisted then after == l.policy.annotations
            else
              && (k in after <==>
                  k in s.annotations && !(s.annotationsPersisted && UsedBy(NewEvents(l, l'), s.acks, k)))
              && (k in after ==> after[k] == s.annotations[k])
  {
    SyncOutcome(fmt, l, s);
    ConsumedIsUsed(fmt, l.policy, s.batch, s.now, s.acks);
    if s.outcome == Persisted && s.annotationsPersisted {
      SyncAnnotationsLeft(fmt, l, s);
    }
  }

  /** What one sync does to the IDs, from any sound ledger: the event IDs are new among
      the emitted ones, they are not active afterwards, and no retired ID comes back. */
  lemma SyncIds(fmt: Formatter, l: Ledger, s: Step)
    requires Sound(l) && s.Sync?
    ensures Sound(Next(fmt, l, s))
    ensures l.emitted <= Next(fmt, l, s).emitted
    ensures forall id :: Retired(l.policy.status, id) ==>
                           Retired(Next(fmt, l, s).policy.status, id) &&
                           id !in AckIdsOf(NewEvents(l, Next(fmt, l, s)))
  {
    SyncOutcome(fmt, l, s);
    if s.outcome != Rejected {
      RecomputedSound(fmt, l, s.batch, s.now, s.acks);
      RecomputedOrdered(fmt, l.policy, s.batch, s.now, s.acks);
      forall id | Retired(l.policy.status, id)
        ensures Retired(Recomputed(fmt, l.policy, s.batch, s.now, s.acks).status, id)
        ensures id !in AckIdsOf(Returned(fmt, l.policy, s.batch, s.now, s.acks))
      {
        RetiredStays(fmt, l.policy, s.batch, s.now, s.acks, id);
      }
    }
  }

  lemma NextSound(fmt: Formatter, l: Ledger, s: Step)
    requires Sound(l) && Enabled(l, s)
    ensures Sound(Next(fmt, l, s)) && l.emitted <= Next(fmt, l, s).emitted
    ensures forall id :: Retired(l.policy.status, id) ==>
                           Retired(Next(fmt, l, s).policy.status, id) &&
                           id !in AckIdsOf(NewEvents(l, Next(fmt, l, s)))
  {
    if s.Sync? { SyncIds(fmt, l, s); }
  }

  // ----- over every run -----

  /** A policy nothing was recorded for yet. */
  ghost predicate Fresh(l: Ledger) {
    && l.emitted == [] && l.policy.status.violationCount == 0
    && l.policy.status.violations == [] && l.policy.status.acknowledged == []
    && BackendPopulated(l.policy.spec)
  }

  lemma FreshIsSound(l: Ledger)
    requires Fresh(l)
    ensures Sound(l)
  {
  }

  lemma ValidRunInit(fmt: Formatter, l: Ledger, run: seq<Step>)
    requires ValidRun(fmt, l, run) && run != []
    ensures ValidRun(fmt, l, run[..|run| - 1])
    ensures Enabled(After(fmt, l, run[..|run| - 1]), run[|run| - 1])
  {
    var init := run[..|run| - 1];
    forall i | 0 <= i < |init|
      ensures Enabled(After(fmt, l, init[..i]), init[i])
    {
      assert init[..i] == run[..i] && init[i] == run[i];
    }
  }

  /** Events are only ever appended, and an ID that was retired at some point is
      retired ever after and in no later event. */
  ghost predicate Extends(l: Ledger, l': Ledger) {
    && l.emitted <= l'.emitted
    && forall id :: Retired(l.policy.status, id) ==>
                      Retired(l'.policy.status, id) && id !in AckIdsOf(NewEvents(l, l'))
  }

  lemma ExtendsTransitive(a: Ledger, b: Ledger, c: Ledger)
    requires Extends(a, b) && Extends(b, c)
    ensures Extends(a, c)
  {
    var first, second := NewEvents(a, b), NewEvents(b, c);
    assert NewEvents(a, c) == first + second;
    forall id | Retired(a.policy.status, id)
      ensures id !in AckIdsOf(first + second)
    {
      assert id !in AckIdsOf(first) && id !in AckIdsOf(second);
    }
  }

  lemma {:induction false} RunSound(fmt: Formatter, l: Ledger, run: seq<Step>)
    requires Sound(l) && ValidRun(fmt, l, run)
    ensures Sound(After(fmt, l, run)) && Extends(l, After(fmt, l, run))
  {
    if run == [] {
      assert l.emitted[|l.emitted|..] == [];
    } else {
      ValidRunInit(fmt, l, run);
      var before := After(fmt, l, run[..|run| - 1]);
      RunSound(fmt, l, run[..|run| - 1]);
      NextSound(fmt, before, run[|run| - 1]);
      ExtendsTransitive(l, before, After(fmt, l, run));
    }
  }

  /** At-most-once acknowledgement: over every run, with arbitrary patch failures and
      user edits, no violation ID is emitted as acknowledged twice. */
  lemma AtMostOnce(fmt: Formatter, l: Ledger, run: seq<Step>)
    requires Fresh(l) && ValidRun(fmt, l, run)
    ensures var events := After(fmt, l, run).emitted;
            forall i, j :: 0 <= i < j < |events| ==> events[i].violation.id != events[j].violation.id
  {
    FreshIsSound(l);
    RunSound(fmt, l, run);
    var events := After(fmt, l, run).emitted;
    forall i, j | 0 <= i < j < |events|
      ensures events[i].violation.id != events[j].violation.id
    {
      assert AckedId()(events[i]) != AckedId()(events[j]);
    }
  }

  lemma PersistedEvents(fmt: Formatter, l: Ledger, s: Step)
    requires Sound(l) && s.Sync? && s.outcome == Persisted
    ensures var q, returned := Recomputed(fmt, l.policy, s.batch, s.now, s.acks).status,
                               Returned(fmt, l.policy, s.batch, s.now, s.acks);
            && NewEvents(l, Next(fmt, l, s)) == returned
            && Next(fmt, l, s).policy.status == q.(conditions := s.conditions)
            && forall id :: id in AckIdsOf(returned) ==> Retired(q, id) && !Retired(l.policy.status, id)
  {
    AcknowledgedNotActive(fmt, l, s.batch, s.now, s.acks);
    ReturnedFacts(fmt, l.policy, s.batch, s.now, s.acks);
    StatusPatchExact(l.policy.status, Recomputed(fmt, l.policy, s.batch, s.now, s.acks).status, s.conditions);
  }

  /** Ordering guard: a step emits only if its status patch was persisted, and then
      every emitted ID is out of the persisted active list, for the first time. */
  lemma EmitsOnlyAfterPersist(fmt: Formatter, l: Ledger, s: Step)
    requires Sound(l)
    ensures NewEvents(l, Next(fmt, l, s)) != [] ==> s.Sync? && s.outcome == Persisted
    ensures var l' := Next(fmt, l, s);
            forall id :: id in AckIdsOf(NewEvents(l, l')) ==>
                           Retired(l'.policy.status, id) && !Retired(l.policy.status, id)
  {
    if s.Sync? && s.outcome == Persisted {
      PersistedEvents(fmt, l, s);
    } else {
      assert Next(fmt, l, s).emitted == l.emitted;
    }
  }

  lemma SoundIds(l: Ledger)
    requires Sound(l)
    ensures var s := l.policy.status;
            var ids := Map(s.violations, Violations().idOf) + Map(s.acknowledged, AckedId());
            && (forall i, j :: 0 <= i < j < |ids| ==> ids[i] != ids[j])
            && (forall i :: 0 <= i < |ids| ==> 0 <= ids[i] < s.violationCount)
  {
    var s, w := l.policy.status, Violations();
    var n, ids := |s.violations|, Map(s.violations, w.idOf) + Map(s.acknowledged, AckedId());
    forall i | 0 <= i < |ids|
      ensures 0 <= ids[i] < s.violationCount && (ids[i] in ActiveIds(s) <==> i < n)
    {
      if i < n {
        assert ids[i] == w.Id(s.violations[i]);
        assert ids[i] in IdsOf(w, s.violations);
      } else {
        assert ids[i] == s.acknowledged[i - n].violation.id;
        assert ids[i] in AckIdsOf(s.acknowledged) + AckIdsOf(l.emitted);
      }
    }
    forall i, j | 0 <= i < j < |ids|
      ensures ids[i] != ids[j]
    {
      if j < n {
        assert w.idOf(s.violations[i]) != w.idOf(s.violations[j]);
      } else if i >= n {
        assert AckedId()(s.acknowledged[i - n]) != AckedId()(s.acknowledged[j - n]);
      }
    }
  }

  /** ID lifecycle: in every reachable status the active and acknowledged IDs together
      are pairwise distinct and issued, no violation is active twice, and both lists are
      newest first and at most a hundred long. */
  lemma IdLifecycle(fmt: Formatter, l: Ledger, run: seq<Step>)
    requires Fresh(l) && ValidRun(fmt, l, run)
    ensures var s := After(fmt, l, run).policy.status;
            var ids := Map(s.violations, Violations().idOf) + Map(s.acknowledged, AckedId());
            && (forall i, j :: 0 <= i < j < |ids| ==> ids[i] != ids[j])
            && (forall i :: 0 <= i < |ids| ==> 0 <= ids[i] < s.violationCount)
            && DistinctKeys(Violations(), s.violations)
            && Sorted(s.violations, Violations().seenOf) && |s.violations| <= MAX_VIOLATION_RECORDS
            && Sorted(s.acknowledged, AckedAt()) && |s.acknowledged| <= MAX_VIOLATION_RECORDS
  {
    FreshIsSound(l);
    RunSound(fmt, l, run);
    SoundIds(After(fmt, l, run));
  }

  /** An annotation for a retired ID is inert forever: in no continuation does the ID
      become active or appear in another event. */
  lemma RetiredForever(fmt: Formatter, l: Ledger, run: seq<Step>, rest: seq<Step>, id: int)
    requires Fresh(l) && ValidRun(fmt, l, run) && ValidRun(fmt, After(fmt, l, run), rest)
    requires Retired(After(fmt, l, run).policy.status, id)
    ensures var now, later := After(fmt, l, run), After(fmt, After(fmt, l, run), rest);
            id !in ActiveIds(later.policy.status) && id !in AckIdsOf(NewEvents(now, later))
  {
    FreshIsSound(l);
    RunSound(fmt, l, run);
    RunSound(fmt, After(fmt, l, run), rest);
  }
}
