/** Istio learning and promotion as steps over the cluster
    (internal/controller/learning_istio.go and workloadnetworkpolicyproposal_controller.go). */
module IstioLearning {
  import opened Api
  import opened Text
  import opened IstioRules
  import opened ProposalNames
  import opened Seqs
  import K = KubernetesLearning

  /** A learning event: the identity of the source reached a port of the destination. */
  datatype Event = Event(dest: WorkloadRef, identity: string, port: int)

  /** Istio policies are inbound, so proposals are for ingress. */
  function KeyOf(dest: WorkloadRef): NamespacedName { K.ProposalKey(dest, INGRESS) }

  /** The proposal after the mutate callback of CreateOrUpdate: the back end and the selector
      are set only when there is no Istio payload yet. */
  function LearnedProposal(current: Option<PolicySpec>, e: Event): PolicySpec {
    var known := current.Some? && current.value.istio.Some?;
    var istio := if known then current.value.istio.value else IstioSpec(e.dest.selector, []);
    PolicySpec(
      if known then current.value.backend else ISTIO,
      if current.Some? then current.value.kubernetes else None,
      Some(istio.(rules := Upsert(istio.rules, e.identity, FormatInt(e.port)))),
      TargetRef(e.dest.ownerKind, e.dest.ownerName), INGRESS, "")
  }

  ghost function ObserveStep(c: K.Cluster, e: Event, writeOk: bool): K.Cluster {
    var key := KeyOf(e.dest);
    if K.PromotedFrom(c.policies, key.namespace, key.name) == {} && writeOk
    then c.(proposals := c.proposals[key := LearnedProposal(K.Lookup(c.proposals, key), e)])
    else c
  }

  /** The event is processed without an error or a panic; a missing source is only looked at
      when a rule is learned, and then it is a nil pointer. */
  ghost predicate Succeeds(c: K.Cluster, source: Option<WorkloadRef>, dest: Option<WorkloadRef>, calls: K.Calls) {
    && dest.Some? && calls.listOk
    && var key := KeyOf(dest.value);
       var promoted := |K.PromotedFrom(c.policies, key.namespace, key.name)|;
       promoted == 1 || (promoted == 0 && source.Some? && calls.writeOk && calls.ownerOk)
  }

  class Controllers {
    var proposals: map<NamespacedName, PolicySpec>
    var policies: map<NamespacedName, Policy>
    var observations: seq<Observation>

    constructor ()
      ensures State() == K.Cluster(map[], map[], [])
    {
      proposals, policies, observations := map[], map[], [];
    }

    ghost function State(): K.Cluster
      reads this
    {
      K.Cluster(proposals, policies, observations)
    }

    /** processIstioLearningEvent with updateProposal. */
    method ProcessIstioLearningEvent(
      source: Option<WorkloadRef>, dest: Option<WorkloadRef>, dstPort: int, calls: K.Calls) returns (ok: bool)
      modifies this`proposals
      ensures ok <==> Succeeds(old(State()), source, dest, calls)
      ensures if source.Some? && dest.Some? && calls.listOk then
                var e := Event(dest.value, source.value.identity, dstPort);
                State() == ObserveStep(old(State()), e, calls.writeOk)
              else State() == old(State())
    {
      if dest.None? || !calls.listOk {
        return false;
      }
      var key := KeyOf(dest.value);
      var existing := K.PromotedFrom(policies, key.namespace, key.name);
      if |existing| > 1 {
        return false;
      }
      if |existing| == 1 {
        return true;
      }
      if source.None? || !calls.writeOk {
        return false;
      }
      var current := K.Lookup(proposals, key);
      var backend, spec := ISTIO, IstioSpec(dest.value.selector, []);
      if current.Some? && current.value.istio.Some? {
        backend, spec := current.value.backend, current.value.istio.value;
      }
      var payload := new IstioPayload(spec);
      payload.UpsertLearnedRule(source.value.identity, FormatInt(dstPort));
      proposals := proposals[key := PolicySpec(
          backend, if current.Some? then current.value.kubernetes else None, Some(payload.spec),
          TargetRef(dest.value.ownerKind, dest.value.ownerName), INGRESS, "")];
      return calls.ownerOk;
    }
  }

  // ----- runs -----

  datatype Step =
    | Observe(e: Event, writeOk: bool)
    | Reconcile(key: NamespacedName, promote: Option<string>, env: K.Env)

  ghost predicate ValidStep(s: Step) {
    s.Observe? ==> Learnable(s.e.dest.ownerKind, s.e.dest.ownerName, INGRESS) &&
                   0 - INT32_LIMIT <= s.e.port < INT32_LIMIT
  }

  ghost predicate ValidRun(run: seq<Step>) { forall i :: 0 <= i < |run| ==> ValidStep(run[i]) }

  ghost function Next(c: K.Cluster, s: Step): K.Cluster {
    match s
    case Observe(e, writeOk) => ObserveStep(c, e, writeOk)
    case Reconcile(key, promote, env) => K.ProposalStep(c, key, promote, env)
  }

  ghost function After(run: seq<Step>): K.Cluster {
    if run == [] then K.Cluster(map[], map[], [])
    else Next(After(run[..|run| - 1]), run[|run| - 1])
  }

  /** The events kept for one workload after one more step: those written while no policy was
      promoted, since its proposal was last dropped unpromoted. */
  ghost function NextEvents(c: K.Cluster, events: seq<Event>, s: Step, w: WorkloadRef): seq<Event> {
    var key, after := KeyOf(w), Next(c, s);
    if key in c.policies then events
    else if s.Observe? then
      if s.writeOk && KeyOf(s.e.dest) == key then events + [s.e] else events
    else if key in c.proposals && key !in after.proposals && key !in after.policies then [] else events
  }

  /** The events a run learned for one workload. */
  ghost function EventsOf(run: seq<Step>, w: WorkloadRef): seq<Event> {
    if run == [] then []
    else
      var init := run[..|run| - 1];
      NextEvents(After(init), EventsOf(init, w), run[|run| - 1], w)
  }

  ghost function PairsOf(events: seq<Event>): seq<Learning> {
    Map(events, (e: Event) => Learning(e.identity, e.port))
  }

  /** What the spec of a proposal or policy says after those events. */
  ghost predicate Holds(spec: PolicySpec, events: seq<Event>, w: WorkloadRef) {
    && spec.backend == ISTIO && spec.istio.Some? && spec.kubernetes.None? && events != []
    && spec.istio.value.rules == LearnAll([], PairsOf(events))
    && spec.istio.value.selector == events[0].dest.selector
    && spec.targetRef == TargetRef(w.ownerKind, w.ownerName) && spec.direction == INGRESS
  }

  /** Every event is for the workload, on a port of the wire format. */
  ghost predicate AllFor(events: seq<Event>, w: WorkloadRef) {
    forall i :: 0 <= i < |events| ==>
                  && events[i].dest.namespace == w.namespace && events[i].dest.ownerKind == w.ownerKind
                  && events[i].dest.ownerName == w.ownerName && 0 - INT32_LIMIT <= events[i].port < INT32_LIMIT
  }

  ghost predicate Tracks(c: K.Cluster, events: seq<Event>, w: WorkloadRef) {
    var key := KeyOf(w);
    && K.LabelledByName(c.policies) && AllFor(events, w)
    && (if key in c.policies
        then Holds(c.policies[key].spec, events, w) && c.policies[key].spec.mode in {MONITOR, PROTECT}
        else if key in c.proposals then Holds(c.proposals[key], events, w)
        else events == [])
  }

  lemma LearnedHolds(current: Option<PolicySpec>, events: seq<Event>, e: Event, w: WorkloadRef)
    requires e.dest.ownerKind == w.ownerKind && e.dest.ownerName == w.ownerName
    requires if current.Some? then Holds(current.value, events, w) else events == []
    ensures Holds(LearnedProposal(current, e), events + [e], w)
  {
    var pairs, longer := PairsOf(events), PairsOf(events + [e]);
    MapSnoc(events, e, (e: Event) => Learning(e.identity, e.port));
    assert longer[..|longer| - 1] == pairs && longer[|longer| - 1] == Learning(e.identity, e.port);
    assert (events + [e])[0] == if events == [] then e else events[0];
  }

  lemma ObserveTracks(c: K.Cluster, events: seq<Event>, w: WorkloadRef, e: Event, writeOk: bool)
    requires Learnable(w.ownerKind, w.ownerName, INGRESS) && ValidStep(Observe(e, writeOk)) && Tracks(c, events, w)
    ensures Tracks(ObserveStep(c, e, writeOk), NextEvents(c, events, Observe(e, writeOk), w), w)
  {
    var key, own := KeyOf(w), KeyOf(e.dest);
    K.PromotedIsOwnKey(c.policies, own);
    if own == key {
      ProposalNameInjective(w.ownerKind, w.ownerName, INGRESS, e.dest.ownerKind, e.dest.ownerName, INGRESS);
      if writeOk && key !in c.policies {
        LearnedHolds(K.Lookup(c.proposals, key), events, e, w);
      }
    }
  }

  lemma NextTracks(c: K.Cluster, events: seq<Event>, s: Step, w: WorkloadRef)
    requires ValidStep(s) && Learnable(w.ownerKind, w.ownerName, INGRESS) && Tracks(c, events, w)
    ensures Tracks(Next(c, s), NextEvents(c, events, s, w), w)
  {
    match s
    case Observe(e, writeOk) => ObserveTracks(c, events, w, e, writeOk);
    case Reconcile(key, promote, env) => K.ProposalStepAt(c, key, promote, env, KeyOf(w));
  }

  lemma {:induction false} RunTracks(run: seq<Step>, w: WorkloadRef)
    requires ValidRun(run) && Learnable(w.ownerKind, w.ownerName, INGRESS)
    ensures Tracks(After(run), EventsOf(run, w), w)
  {
    if run != [] {
      var init, last := run[..|run| - 1], run[|run| - 1];
      RunTracks(init, w);
      assert ValidStep(last);
      NextTracks(After(init), EventsOf(init, w), last, w);
    }
  }

  /** Some event had that port, and that identity or any. */
  ghost predicate LearnedFrom(events: seq<Event>, identity: string, r: int) {
    exists e :: e in events && 0 <= e.port == r && (e.identity == "*" || e.identity == identity)
  }

  lemma LearnedIff(events: seq<Event>, identity: string, r: int)
    ensures Learned(PairsOf(events), identity, r) <==> LearnedFrom(events, identity, r)
  {
    var pairs := PairsOf(events);
    assert forall i :: 0 <= i < |events| ==> pairs[i] == Learning(events[i].identity, events[i].port);
    if e :| e in events && 0 <= e.port == r && (e.identity == "*" || e.identity == identity) {
      var i :| 0 <= i < |events| && events[i] == e;
      assert Grants(pairs[i], identity, r);
    }
  }

  lemma HoldsExactly(spec: PolicySpec, events: seq<Event>, w: WorkloadRef, identity: string, r: int)
    requires Holds(spec, events, w) && AllFor(events, w)
    ensures Allows(spec.istio.value.rules, identity, r) <==> LearnedFrom(events, identity, r)
  {
    LearnFromEmptyExact(PairsOf(events), identity, r);
    LearnedIff(events, identity, r);
  }

  /** Istio learning is exact end to end: after any run of learning and promotion, with any
      calls failing, the rules kept for a workload allow an identity and port exactly when an
      event for that workload had them, both in the proposal and in the policy promoted from
      it, which selects and targets that workload. */
  lemma LearningExact(run: seq<Step>, w: WorkloadRef, identity: string, r: int)
    requires ValidRun(run) && Learnable(w.ownerKind, w.ownerName, INGRESS)
    ensures var c, key, events := After(run), KeyOf(w), EventsOf(run, w);
            && AllFor(events, w)
            && (key in c.policies ==>
                  && c.policies[key].spec.istio.Some? && events != []
                  && (Allows(c.policies[key].spec.istio.value.rules, identity, r) <==>
                      LearnedFrom(events, identity, r))
                  && c.policies[key].spec.targetRef == TargetRef(w.ownerKind, w.ownerName)
                  && c.policies[key].spec.istio.value.selector == events[0].dest.selector)
            && (key !in c.policies && key in c.proposals ==>
                  && c.proposals[key].istio.Some?
                  && (Allows(c.proposals[key].istio.value.rules, identity, r) <==> LearnedFrom(events, identity, r)))
            && (key !in c.policies && key !in c.proposals ==> events == [])
  {
    RunTracks(run, w);
    var c, key, events := After(run), KeyOf(w), EventsOf(run, w);
    if key in c.policies {
      HoldsExactly(c.policies[key].spec, events, w, identity, r);
    } else if key in c.proposals {
      HoldsExactly(c.proposals[key], events, w, identity, r);
    }
  }

  lemma {:induction false} KeptFromRun(run: seq<Step>, w: WorkloadRef)
    ensures forall e :: e in EventsOf(run, w) ==>
                          exists i :: 0 <= i < |run| && run[i].Observe? && run[i].writeOk && run[i].e == e
  {
    if run != [] {
      var init := run[..|run| - 1];
      KeptFromRun(init, w);
      forall e | e in EventsOf(run, w)
        ensures exists i :: 0 <= i < |run| && run[i].Observe? && run[i].writeOk && run[i].e == e
      {
        if e in EventsOf(init, w) {
          var i :| 0 <= i < |init| && init[i].Observe? && init[i].writeOk && init[i].e == e;
          assert run[i] == init[i];
        } else {
          assert run[|run| - 1].Observe? && run[|run| - 1].e == e;
        }
      }
    }
  }

  lemma FirstPopulated(run: seq<Step>, w: WorkloadRef)
    requires forall i :: 0 <= i < |run| && run[i].Observe? ==> SelectorPopulated(run[i].e.dest.selector)
    ensures EventsOf(run, w) != [] ==> SelectorPopulated(EventsOf(run, w)[0].dest.selector)
  {
    var events := EventsOf(run, w);
    if events != [] {
      KeptFromRun(run, w);
      assert events[0] in events;
    }
  }

  lemma TrackedAccepted(c: K.Cluster, events: seq<Event>, w: WorkloadRef)
    requires Tracks(c, events, w) && Learnable(w.ownerKind, w.ownerName, INGRESS) && KeyOf(w) in c.policies
    requires events != [] ==> SelectorPopulated(events[0].dest.selector)
    ensures SchemaAccepts(c.policies[KeyOf(w)].spec)
  {
  }

  /** Promotion writes only policies the CRD schema accepts, as long as the learned workloads
      have labels. */
  lemma {:induction false} PromotedSchemaValid(run: seq<Step>, w: WorkloadRef)
    requires ValidRun(run) && Learnable(w.ownerKind, w.ownerName, INGRESS) && KeyOf(w) in After(run).policies
    requires forall i :: 0 <= i < |run| && run[i].Observe? ==> SelectorPopulated(run[i].e.dest.selector)
    ensures SchemaAccepts(After(run).policies[KeyOf(w)].spec)
  {
    RunTracks(run, w);
    FirstPopulated(run, w);
    TrackedAccepted(After(run), EventsOf(run, w), w);
  }

  /** After promotion nothing more is learned for the workload. */
  lemma PromotedLearnsNothing(run: seq<Step>, e: Event, writeOk: bool)
    requires ValidRun(run) && Learnable(e.dest.ownerKind, e.dest.ownerName, INGRESS)
    requires KeyOf(e.dest) in After(run).policies
    ensures ObserveStep(After(run), e, writeOk) == After(run)
  {
    RunTracks(run, e.dest);
    K.PromotedIsOwnKey(After(run).policies, KeyOf(e.dest));
  }
}
