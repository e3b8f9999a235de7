/** Kubernetes learning, promotion and monitoring as steps over the cluster
    (internal/controller/learning_kubernetes.go, monitor_kubernetes.go and
    workloadnetworkpolicyproposal_controller.go). */
module KubernetesLearning {
  import opened Api
  import opened KubernetesRules
  import opened Seqs
  import opened ProposalNames
  import TargetIndex

  /** `observations` is the sequence of monitor violations handed to the buffer. */
  datatype Cluster = Cluster(
    proposals: map<NamespacedName, PolicySpec>, policies: map<NamespacedName, Policy>, observations: seq<Observation>)

  /** One direction of a learning event: `workload` is the side the policy selects. */
  datatype Event = Event(
    workload: WorkloadRef, peer: WorkloadRef, direction: string, protocol: string, dstPort: int)

  function ProposalKey(workload: WorkloadRef, direction: string): NamespacedName {
    NamespacedName(workload.namespace, ProposalName(workload.ownerKind, workload.ownerName, direction))
  }

  function EventFlow(e: Event): Flow { Flow(BuildPeer(e.peer), BuildPort(e.protocol, e.dstPort)) }

  function RulesOf(spec: PolicySpec, direction: string): seq<PeerRule> {
    if spec.kubernetes.None? then []
    else if direction == EGRESS then spec.kubernetes.value.egress else spec.kubernetes.value.ingress
  }

  /** checkExistingPolicy: the policies promoted from the named proposal. */
  function PromotedFrom(policies: map<NamespacedName, Policy>, namespace: string, proposalName: string):
    set<NamespacedName>
  {
    set k | k in policies && k.namespace == namespace && PROMOTED_FROM_LABEL in policies[k].labels &&
            policies[k].labels[PROMOTED_FROM_LABEL] == proposalName
  }

  function GenerateObservation(policyName: string, e: Event, now: int): Observation {
    var source, dest := if e.direction == INGRESS then e.peer else e.workload,
                        if e.direction == INGRESS then e.workload else e.peer;
    Observation(
      ViolationInfo(now, source, dest, e.protocol, e.dstPort, MONITOR, e.workload.namespace, policyName),
      KUBERNETES, e.direction)
  }

  /** The observation reports the flow of the event: from the workload to its peer for egress
      and the other way round for ingress, with the policy that would have denied it. */
  ghost predicate Reports(obs: Observation, e: Event, policyName: string, now: int) {
    && (e.direction == EGRESS ==> obs.info.source == e.workload && obs.info.dest == e.peer)
    && (e.direction == INGRESS ==> obs.info.source == e.peer && obs.info.dest == e.workload)
    && obs.info.protocol == e.protocol && obs.info.dstPort == e.dstPort && obs.info.timestamp == now
    && obs.info.action == MONITOR && obs.provider == KUBERNETES && obs.direction == e.direction
    && obs.info.denyingNamespace == e.workload.namespace && obs.info.denyingName == policyName
  }

  // ----- what one reconcile does -----

  const EMPTY_SPEC := NetworkPolicySpec(LabelSelector(map[], []), [], [], [])

  /** The proposal after the mutate callback of CreateOrUpdate. */
  function LearnedProposal(fmt: Formatter, current: Option<PolicySpec>, e: Event): PolicySpec {
    var payload := if current.Some? && current.value.kubernetes.Some? then current.value.kubernetes.value
                   else EMPTY_SPEC;
    var typed := if payload.policyTypes == []
                 then payload.(podSelector := e.workload.selector, policyTypes := [e.direction]) else payload;
    var flow := EventFlow(e);
    var learned := if e.direction == EGRESS
                   then typed.(egress := Upsert(fmt, typed.egress, flow.peer, flow.port))
                   else typed.(ingress := Upsert(fmt, typed.ingress, flow.peer, flow.port));
    PolicySpec(
      KUBERNETES, Some(learned), if current.Some? then current.value.istio else None,
      TargetRef(e.workload.ownerKind, e.workload.ownerName), e.direction, "")
  }

  function Lookup<V>(m: map<NamespacedName, V>, k: NamespacedName): Option<V> {
    if k in m then Some(m[k]) else None
  }

  ghost function ObserveStep(fmt: Formatter, c: Cluster, e: Event, now: int, writeOk: bool): Cluster {
    var key := ProposalKey(e.workload, e.direction);
    var existing := PromotedFrom(c.policies, key.namespace, key.name);
    if existing == {} then
      if writeOk then c.(proposals := c.proposals[key := LearnedProposal(fmt, Lookup(c.proposals, key), e)]) else c
    else if |existing| == 1 then
      var k :| k in existing;
      var policy := c.policies[k];
      if policy.spec.mode == PROTECT || policy.spec.kubernetes.None? ||
         Covers(fmt, RulesOf(policy.spec, e.direction), EventFlow(e).peer, EventFlow(e).port)
      then c
      else c.(observations := c.observations + [GenerateObservation(policy.key.name, e, now)])
    else c
  }

  /** The calls one learned direction makes: the policy List, CreateOrUpdate of the
      proposal and, after it, the owner reference. */
  datatype Calls = Calls(listOk: bool, writeOk: bool, ownerOk: bool)

  ghost function Observed(fmt: Formatter, c: Cluster, e: Event, now: int, calls: Calls): Cluster {
    if calls.listOk then ObserveStep(fmt, c, e, now, calls.writeOk) else c
  }

  /** A promoted policy without a Kubernetes payload: evaluateMonitorViolation reads the
      rules through a nil pointer, and the panic ends the event as an error does. */
  ghost predicate Panics(policies: map<NamespacedName, Policy>, existing: set<NamespacedName>)
    requires existing <= policies.Keys
  {
    exists k :: k in existing && policies[k].spec.mode != PROTECT && policies[k].spec.kubernetes.None?
  }

  /** The event is processed without an error or a panic. */
  ghost predicate Succeeds(c: Cluster, e: Event, calls: Calls) {
    var key := ProposalKey(e.workload, e.direction);
    var existing := PromotedFrom(c.policies, key.namespace, key.name);
    calls.listOk && ((|existing| == 1 && !Panics(c.policies, existing)) ||
                     (existing == {} && calls.writeOk && calls.ownerOk))
  }

  // ----- promotion -----

  const MAX_LABEL_VALUE_LENGTH := 63
  const EMPTY_STATUS := Status([], 0, 0, 0, [], [])

  ghost predicate NamesWorkload(name: string) {
    exists k, n, d :: Learnable(k, n, d) && name == ProposalName(k, n, d)
  }

  /** What one proposal reconcile meets: whether the proposal is being deleted, whether its
      workload could be read and the owner reference repaired, whether the workload exists,
      and the outcomes of the policy List, Create and Delete. */
  datatype Env = Env(
    terminating: bool, ownershipOk: bool, ownerExists: bool, listOk: bool, createOk: bool, deleteOk: bool,
    uid: string, created: int)

  ghost function Dropped(c: Cluster, key: NamespacedName, env: Env): Cluster {
    if env.deleteOk then c.(proposals := c.proposals - {key}) else c
  }

  /** The proposal Reconcile: drop orphans and leftovers, then promote. */
  ghost function ProposalStep(c: Cluster, key: NamespacedName, promote: Option<string>, env: Env): Cluster {
    if key !in c.proposals || env.terminating then c
    else if NamesWorkload(key.name) && !env.ownershipOk then c
    else if NamesWorkload(key.name) && !env.ownerExists then Dropped(c, key, env)
    else if !env.listOk then c
    else if PromotedFrom(c.policies, key.namespace, key.name) != {} then Dropped(c, key, env)
    else if promote != Some(MONITOR) && promote != Some(PROTECT) then c
    else if |key.name| > MAX_LABEL_VALUE_LENGTH || key in c.policies || !env.createOk then c
    else
      var policy := Policy(
        key, env.uid, 1, env.created, false, map[PROMOTED_FROM_LABEL := key.name], map[],
        c.proposals[key].(mode := promote.value), EMPTY_STATUS);
      Dropped(c.(policies := c.policies[key := policy]), key, env)
  }

  /** The learning and proposal reconcilers, over the cluster state they share. */
  class Controllers {
    const fmt: Formatter
    var proposals: map<NamespacedName, PolicySpec>
    var policies: map<NamespacedName, Policy>
    var observations: seq<Observation>

    constructor (fmt: Formatter)
      ensures this.fmt == fmt && State() == Cluster(map[], map[], [])
    {
      this.fmt := fmt;
      proposals, policies, observations := map[], map[], [];
    }

    ghost function State(): Cluster
      reads this
    {
      Cluster(proposals, policies, observations)
    }

    /** reconcileKubernetesProposal */
    method ReconcileKubernetesProposal(e: Event, now: int, calls: Calls) returns (ok: bool)
      requires e.direction == INGRESS || e.direction == EGRESS
      modifies this`proposals, this`observations
      ensures State() == Observed(fmt, old(State()), e, now, calls)
      ensures ok <==> Succeeds(old(State()), e, calls)
    {
      if !calls.listOk {
        return false;
      }
      var key := ProposalKey(e.workload, e.direction);
      var existing := PromotedFrom(policies, key.namespace, key.name);
      if |existing| > 1 {
        return false;
      }
      if existing != {} {
        var k :| k in existing;
        forall x | x in existing ensures x == k { TargetIndex.OnlyElement(existing, x, k); }
        if policies[k].spec.mode != PROTECT {
          ok := EvaluateMonitorViolation(policies[k], e, now);
          return ok;
        }
        return true;
      }
      if !calls.writeOk {
        return false;
      }
      var current := Lookup(proposals, key);
      var payload := if current.Some? && current.value.kubernetes.Some? then current.value.kubernetes.value
      else EMPTY_SPEC;
      if payload.policyTypes == [] {
        payload := payload.(podSelector := e.workload.selector, policyTypes := [e.direction]);
      }
      var flow := EventFlow(e);
      if e.direction == EGRESS {
        var rules := UpsertRuleByPeer(fmt, payload.egress, flow.peer, flow.port);
        payload := payload.(egress := rules);
      } else {
        var rules := UpsertRuleByPeer(fmt, payload.ingress, flow.peer, flow.port);
        payload := payload.(ingress := rules);
      }
      var istio := if current.Some? then current.value.istio else None;
      proposals := proposals[key := PolicySpec(
          KUBERNETES, Some(payload), istio, TargetRef(e.workload.ownerKind, e.workload.ownerName), e.direction, "")];
      return calls.ownerOk;
    }

    /** evaluateMonitorViolation: one observation unless the policy covers the flow. False
        is the panic on a policy without a Kubernetes payload. */
    method EvaluateMonitorViolation(policy: Policy, e: Event, now: int) returns (ok: bool)
      requires e.direction == INGRESS || e.direction == EGRESS
      modifies this`observations
      ensures ok <==> policy.spec.kubernetes.Some?
      ensures var flow := EventFlow(e);
              observations == old(observations) +
                              if !ok || Covers(fmt, RulesOf(policy.spec, e.direction), flow.peer, flow.port)
                              then [] else [GenerateObservation(policy.key.name, e, now)]
    {
      if policy.spec.kubernetes.None? {
        return false;
      }
      ok := true;
      var flow := EventFlow(e);
      var covered := ContainsPeerPort(fmt, RulesOf(policy.spec, e.direction), flow.peer, flow.port);
      if !covered {
        observations := observations + [GenerateObservation(policy.key.name, e, now)];
      }
    }

    /** processKubernetesLearningEvent: the egress side of the source, then the
        ingress side of the destination; the second is skipped when the first fails. */
    method ProcessKubernetesLearningEvent(
      source: Option<WorkloadRef>, dest: Option<WorkloadRef>, protocol: string, dstPort: int, now: int,
      egressCalls: Calls, ingressCalls: Calls) returns (ok: bool)
      modifies this`proposals, this`observations
      ensures if source.None? || dest.None? then State() == old(State()) && !ok
              else
                var egress := Event(source.value, dest.value, EGRESS, protocol, dstPort);
                var ingress := Event(dest.value, source.value, INGRESS, protocol, dstPort);
                var first := Observed(fmt, old(State()), egress, now, egressCalls);
                if Succeeds(old(State()), egress, egressCalls)
                then State() == Observed(fmt, first, ingress, now, ingressCalls) &&
                     (ok <==> Succeeds(first, ingress, ingressCalls))
                else State() == first && !ok
    {
      if source.None? || dest.None? {
        return false;
      }
      ok := ReconcileKubernetesProposal(Event(source.value, dest.value, EGRESS, protocol, dstPort), now, egressCalls);
      if !ok {
        return;
      }
      ok := ReconcileKubernetesProposal(Event(dest.value, source.value, INGRESS, protocol, dstPort), now, ingressCalls);
    }

    /** Reconcile of a proposal: drop it when its workload is gone or it was already
        promoted, otherwise promote it when its label asks for a mode. */
    method ReconcileProposal(key: NamespacedName, promote: Option<string>, env: Env)
      modifies this`proposals, this`policies
      ensures State() == ProposalStep(old(State()), key, promote, env)
    {
      if key !in proposals || env.terminating {
        return;
      }
      var owner := OwnerRefFromProposalName(key.namespace, key.name);
      assert owner.Some? <==> NamesWorkload(key.name);
      if owner.Some? && !env.ownershipOk {
        return;
      }
      if owner.Some? && !env.ownerExists {
        if env.deleteOk {
          proposals := proposals - {key};
        }
        return;
      }
      if !env.listOk {
        return;
      }
      if PromotedFrom(policies, key.namespace, key.name) != {} {
        if env.deleteOk {
          proposals := proposals - {key};
        }
        return;
      }
      if promote != Some(MONITOR) && promote != Some(PROTECT) {
        return;
      }
      if |key.name| > MAX_LABEL_VALUE_LENGTH || key in policies || !env.createOk {
        return;
      }
      policies := policies[key := Policy(
          key, env.uid, 1, env.created, false, map[PROMOTED_FROM_LABEL := key.name], map[],
          proposals[key].(mode := promote.value), EMPTY_STATUS)];
      if env.deleteOk {
        proposals := proposals - {key};
      }
    }
  }

  // ----- runs -----

  datatype Step =
    | Observe(e: Event, now: int, writeOk: bool)
    | Reconcile(key: NamespacedName, promote: Option<string>, env: Env)

  ghost predicate ValidStep(s: Step) {
    s.Observe? ==> Learnable(s.e.workload.ownerKind, s.e.workload.ownerName, s.e.direction)
  }

  ghost predicate ValidRun(run: seq<Step>) { forall i :: 0 <= i < |run| ==> ValidStep(run[i]) }

  ghost function Next(fmt: Formatter, c: Cluster, s: Step): Cluster {
    match s
    case Observe(e, now, writeOk) => ObserveStep(fmt, c, e, now, writeOk)
    case Reconcile(key, promote, env) => ProposalStep(c, key, promote, env)
  }

  ghost function After(fmt: Formatter, run: seq<Step>): Cluster {
    if run == [] then Cluster(map[], map[], [])
    else Next(fmt, After(fmt, run[..|run| - 1]), run[|run| - 1])
  }

  /** The events kept for one workload and direction after one more step: those written
      while no policy was promoted, since its proposal was last dropped unpromoted. */
  ghost function NextEvents(
    fmt: Formatter, c: Cluster, events: seq<Event>, s: Step, w: WorkloadRef, direction: string): seq<Event>
  {
    var key, after := ProposalKey(w, direction), Next(fmt, c, s);
    if key in c.policies then events
    else if s.Observe? then
      if s.writeOk && ProposalKey(s.e.workload, s.e.direction) == key then events + [s.e] else events
    else if key in c.proposals && key !in after.proposals && key !in after.policies then [] else events
  }

  /** The events a run learned for one workload and direction. */
  ghost function EventsOf(fmt: Formatter, run: seq<Step>, w: WorkloadRef, direction: string): seq<Event> {
    if run == [] then []
    else
      var init := run[..|run| - 1];
      NextEvents(fmt, After(fmt, init), EventsOf(fmt, init, w, direction), run[|run| - 1], w, direction)
  }

  ghost function FlowsOf(events: seq<Event>): seq<Flow> { Map(events, e => EventFlow(e)) }

  /** What the spec of a proposal or policy says after those events: it selects and targets the
      workload, in that direction only, with the learned rules. */
  ghost predicate Holds(fmt: Formatter, spec: PolicySpec, events: seq<Event>, w: WorkloadRef, direction: string) {
    && spec.backend == KUBERNETES && spec.kubernetes.Some? && spec.istio.None? && events != []
    && spec.targetRef == TargetRef(w.ownerKind, w.ownerName) && spec.direction == direction
    && var payload, rules := spec.kubernetes.value, LearnAll(fmt, [], FlowsOf(events));
       && payload.podSelector == events[0].workload.selector && payload.policyTypes == [direction]
       && payload.egress == (if direction == EGRESS then rules else [])
       && payload.ingress == if direction == INGRESS then rules else []
  }

  /** In a run, policies come from promotion only. */
  ghost predicate LabelledByName(policies: map<NamespacedName, Policy>) {
    forall k :: k in policies ==>
                  policies[k].key == k && policies[k].labels == map[PROMOTED_FROM_LABEL := k.name]
  }

  lemma PromotedIsOwnKey(policies: map<NamespacedName, Policy>, key: NamespacedName)
    requires LabelledByName(policies)
    ensures PromotedFrom(policies, key.namespace, key.name) == if key in policies then {key} else {}
  {
    forall k | k in PromotedFrom(policies, key.namespace, key.name)
      ensures k == key
    {
      assert policies[k].labels[PROMOTED_FROM_LABEL] == k.name;
    }
  }

  /** Every event is for the workload and direction. */
  ghost predicate AllFor(events: seq<Event>, w: WorkloadRef, direction: string) {
    forall i :: 0 <= i < |events| ==>
                  && events[i].workload.namespace == w.namespace && events[i].workload.ownerKind == w.ownerKind
                  && events[i].workload.ownerName == w.ownerName && events[i].direction == direction
  }

  /** What every reachable cluster knows about one workload and direction. */
  ghost predicate Tracks(fmt: Formatter, c: Cluster, events: seq<Event>, w: WorkloadRef, direction: string) {
    var key := ProposalKey(w, direction);
    && LabelledByName(c.policies) && AllFor(events, w, direction)
    && (if key in c.policies
        then Holds(fmt, c.policies[key].spec, events, w, direction) && c.policies[key].spec.mode in {MONITOR, PROTECT}
        else if key in c.proposals then Holds(fmt, c.proposals[key], events, w, direction)
        else events == [])
  }

  lemma FlowsSnoc(fmt: Formatter, events: seq<Event>, e: Event)
    ensures LearnAll(fmt, [], FlowsOf(events + [e])) ==
            Upsert(fmt, LearnAll(fmt, [], FlowsOf(events)), EventFlow(e).peer, EventFlow(e).port)
  {
    var flows, longer := FlowsOf(events), FlowsOf(events + [e]);
    MapSnoc(events, e, e => EventFlow(e));
    assert longer[..|longer| - 1] == flows && longer[|longer| - 1] == EventFlow(e);
  }

  /** Writing one more event into the proposal keeps it in step with the list of events. */
  lemma LearnedHolds(
    fmt: Formatter, current: Option<PolicySpec>, events: seq<Event>, e: Event, w: WorkloadRef, direction: string)
    requires e.direction == direction && (direction == INGRESS || direction == EGRESS)
    requires e.workload.ownerKind == w.ownerKind && e.workload.ownerName == w.ownerName
    requires if current.Some? then Holds(fmt, current.value, events, w, direction) else events == []
    ensures Holds(fmt, LearnedProposal(fmt, current, e), events + [e], w, direction)
  {
    FlowsSnoc(fmt, events, e);
    assert (events + [e])[0] == if events == [] then e else events[0];
  }

  /** What an event does to the proposals and policies. */
  lemma ObserveStepAt(fmt: Formatter, c: Cluster, e: Event, now: int, writeOk: bool)
    requires LabelledByName(c.policies)
    ensures var d, own := ObserveStep(fmt, c, e, now, writeOk), ProposalKey(e.workload, e.direction);
            && d.policies == c.policies
            && d.proposals == if own !in c.policies && writeOk
                              then c.proposals[own := LearnedProposal(fmt, Lookup(c.proposals, own), e)]
                              else c.proposals
  {
    PromotedIsOwnKey(c.policies, ProposalKey(e.workload, e.direction));
  }

  lemma ObserveTracks(fmt: Formatter, c: Cluster, events: seq<Event>, w: WorkloadRef, direction: string,
                      e: Event, now: int, writeOk: bool)
    requires Learnable(w.ownerKind, w.ownerName, direction)
    requires Learnable(e.workload.ownerKind, e.workload.ownerName, e.direction)
    requires Tracks(fmt, c, events, w, direction)
    ensures var key := ProposalKey(w, direction);
            var learns := writeOk && key !in c.policies && ProposalKey(e.workload, e.direction) == key;
            Tracks(fmt, ObserveStep(fmt, c, e, now, writeOk),
                   if learns then events + [e] else events, w, direction)
  {
    var key, own := ProposalKey(w, direction), ProposalKey(e.workload, e.direction);
    var d := ObserveStep(fmt, c, e, now, writeOk);
    ObserveStepAt(fmt, c, e, now, writeOk);
    if own == key && writeOk && key !in c.policies {
      ProposalNameInjective(w.ownerKind, w.ownerName, direction,
                            e.workload.ownerKind, e.workload.ownerName, e.direction);
      LearnedHolds(fmt, Lookup(c.proposals, key), events, e, w, direction);
      assert AllFor(events + [e], w, direction);
    } else {
      assert Lookup(d.proposals, key) == Lookup(c.proposals, key);
    }
  }

  /** What a proposal reconcile does to the objects named k. */
  lemma ProposalStepAt(c: Cluster, key: NamespacedName, promote: Option<string>, env: Env, k: NamespacedName)
    requires LabelledByName(c.policies)
    ensures var d := ProposalStep(c, key, promote, env);
            && LabelledByName(d.policies)
            && (k in c.policies ==> k in d.policies && d.policies[k] == c.policies[k])
            && (k in d.proposals ==> k in c.proposals && d.proposals[k] == c.proposals[k])
            && (k !in c.policies && k in d.policies ==>
                  && k == key && k in c.proposals && promote in {Some(MONITOR), Some(PROTECT)}
                  && d.policies[k].spec == c.proposals[k].(mode := promote.value))
  {
  }

  lemma ProposalTracks(fmt: Formatter, c: Cluster, events: seq<Event>, w: WorkloadRef, direction: string,
                       key: NamespacedName, promote: Option<string>, env: Env)
    requires Tracks(fmt, c, events, w, direction)
    ensures var own, d := ProposalKey(w, direction), ProposalStep(c, key, promote, env);
            var gone := own !in c.policies && own in c.proposals && own !in d.proposals && own !in d.policies;
            Tracks(fmt, d, if gone then [] else events, w, direction)
  {
    ProposalStepAt(c, key, promote, env, ProposalKey(w, direction));
  }

  lemma NextTracks(fmt: Formatter, c: Cluster, events: seq<Event>, s: Step, w: WorkloadRef, direction: string)
    requires ValidStep(s) && Learnable(w.ownerKind, w.ownerName, direction) && Tracks(fmt, c, events, w, direction)
    ensures Tracks(fmt, Next(fmt, c, s), NextEvents(fmt, c, events, s, w, direction), w, direction)
  {
    match s
    case Observe(e, now, writeOk) => ObserveTracks(fmt, c, events, w, direction, e, now, writeOk);
    case Reconcile(key, promote, env) => ProposalTracks(fmt, c, events, w, direction, key, promote, env);
  }

  lemma {:induction false} RunTracks(fmt: Formatter, run: seq<Step>, w: WorkloadRef, direction: string)
    requires ValidRun(run) && Learnable(w.ownerKind, w.ownerName, direction)
    ensures Tracks(fmt, After(fmt, run), EventsOf(fmt, run, w, direction), w, direction)
  {
    if run != [] {
      var init, last := run[..|run| - 1], run[|run| - 1];
      RunTracks(fmt, init, w, direction);
      assert ValidStep(last);
      NextTracks(fmt, After(fmt, init), EventsOf(fmt, init, w, direction), last, w, direction);
    }
  }

  // ----- exactness, in terms of the events -----

  ghost function NamespaceSelector(namespace: string): Option<LabelSelector> {
    Some(LabelSelector(map[METADATA_NAME_LABEL := namespace], []))
  }

  /** The peer q stands for the Pods of the workload: it has selectors for the workload's
      namespace and labels, as far as formatting tells, and no IP block. */
  ghost predicate StandsFor(fmt: Formatter, q: Peer, w: WorkloadRef) {
    && fmt(q.namespaceSelector) == fmt(NamespaceSelector(w.namespace))
    && fmt(q.podSelector) == fmt(Some(w.selector)) && q.ipBlock.None?
  }

  /** r is that one port of that protocol. */
  ghost predicate IsPort(r: Port, protocol: string, dstPort: int) {
    r == Port(Some(protocol), Some(IntOrString(0, dstPort, "")), None)
  }

  /** Some event had a peer and port that q and r stand for. */
  ghost predicate LearnedFrom(fmt: Formatter, events: seq<Event>, q: Peer, r: Port) {
    exists e :: e in events && StandsFor(fmt, q, e.peer) && IsPort(r, e.protocol, e.dstPort)
  }

  lemma LearnedIff(fmt: Formatter, events: seq<Event>, q: Peer, r: Port)
    ensures Learned(fmt, FlowsOf(events), q, r) <==> LearnedFrom(fmt, events, q, r)
  {
    var flows := FlowsOf(events);
    forall i | 0 <= i < |events|
      ensures PolicyHelpers.PeerEqual(fmt, flows[i].peer, q) <==> StandsFor(fmt, q, events[i].peer)
      ensures flows[i].port == r <==> IsPort(r, events[i].protocol, events[i].dstPort)
    {
      assert flows[i] == EventFlow(events[i]);
    }
    if e :| e in events && StandsFor(fmt, q, e.peer) && IsPort(r, e.protocol, e.dstPort) {
      var i :| 0 <= i < |events| && events[i] == e;
      assert PolicyHelpers.PeerEqual(fmt, flows[i].peer, q) && flows[i].port == r;
    }
  }

  /** The rules of the direction, and none for the other, cover exactly what was learned. */
  ghost predicate ExactRules(
    fmt: Formatter, spec: PolicySpec, events: seq<Event>, direction: string, q: Peer, r: Port)
  {
    && spec.kubernetes.Some?
    && (direction == EGRESS ==>
          spec.kubernetes.value.ingress == [] && Tidy(fmt, spec.kubernetes.value.egress) &&
          (Covers(fmt, spec.kubernetes.value.egress, q, r) <==> LearnedFrom(fmt, events, q, r)))
    && (direction == INGRESS ==>
          spec.kubernetes.value.egress == [] && Tidy(fmt, spec.kubernetes.value.ingress) &&
          (Covers(fmt, spec.kubernetes.value.ingress, q, r) <==> LearnedFrom(fmt, events, q, r)))
  }

  lemma HoldsExactRules(
    fmt: Formatter, spec: PolicySpec, events: seq<Event>, w: WorkloadRef, direction: string, q: Peer, r: Port)
    requires Holds(fmt, spec, events, w, direction)
    ensures ExactRules(fmt, spec, events, direction, q, r)
  {
    LearnAllExact(fmt, [], FlowsOf(events), q, r);
    LearnAllTidy(fmt, [], FlowsOf(events));
    LearnedIff(fmt, events, q, r);
  }

  /** Learning is exact end to end: after any run of learning and promotion, the rules kept for
      a workload and direction cover a peer and port exactly when an event learned for them had
      that peer and port, both in the proposal and in the policy promoted from it, which selects
      and targets that workload. */
  lemma LearningExact(fmt: Formatter, run: seq<Step>, w: WorkloadRef, direction: string, q: Peer, r: Port)
    requires ValidRun(run) && Learnable(w.ownerKind, w.ownerName, direction)
    ensures var c, key, events := After(fmt, run), ProposalKey(w, direction), EventsOf(fmt, run, w, direction);
            && AllFor(events, w, direction)
            && (key in c.policies ==>
                  && ExactRules(fmt, c.policies[key].spec, events, direction, q, r)
                  && c.policies[key].spec.targetRef == TargetRef(w.ownerKind, w.ownerName)
                  && c.policies[key].spec.direction == direction && events != []
                  && c.policies[key].spec.kubernetes.value.podSelector == events[0].workload.selector)
            && (key !in c.policies && key in c.proposals ==>
                  ExactRules(fmt, c.proposals[key], events, direction, q, r))
            && (key !in c.policies && key !in c.proposals ==> events == [])
  {
    RunTracks(fmt, run, w, direction);
    var c, key, events := After(fmt, run), ProposalKey(w, direction), EventsOf(fmt, run, w, direction);
    if key in c.policies {
      HoldsExactRules(fmt, c.policies[key].spec, events, w, direction, q, r);
    } else if key in c.proposals {
      HoldsExactRules(fmt, c.proposals[key], events, w, direction, q, r);
    }
  }

  /** Some learned event had the protocol and port of e, and a peer whose namespace and labels
      format like those of e's peer. */
  ghost predicate LearnedLike(fmt: Formatter, events: seq<Event>, e: Event) {
    exists x :: && x in events && x.protocol == e.protocol && x.dstPort == e.dstPort
                && fmt(NamespaceSelector(x.peer.namespace)) == fmt(NamespaceSelector(e.peer.namespace))
                && fmt(Some(x.peer.selector)) == fmt(Some(e.peer.selector))
  }

  lemma LearnedLikeIff(fmt: Formatter, events: seq<Event>, e: Event)
    ensures LearnedFrom(fmt, events, EventFlow(e).peer, EventFlow(e).port) <==> LearnedLike(fmt, events, e)
  {
  }

  /** After promotion the learner writes nothing, and a monitored flow yields exactly one
      observation, which reports it, if no like flow was learned, and none if one was. */
  lemma MonitorReportsUnlearned(fmt: Formatter, run: seq<Step>, e: Event, now: int, writeOk: bool)
    returns (obs: Observation)
    requires ValidRun(run) && Learnable(e.workload.ownerKind, e.workload.ownerName, e.direction)
    requires ProposalKey(e.workload, e.direction) in After(fmt, run).policies
    ensures obs == GenerateObservation(ProposalKey(e.workload, e.direction).name, e, now)
    ensures var c, key := After(fmt, run), ProposalKey(e.workload, e.direction);
            && Reports(obs, e, key.name, now)
            && ObserveStep(fmt, c, e, now, writeOk) ==
               if c.policies[key].spec.mode == PROTECT ||
                  LearnedLike(fmt, EventsOf(fmt, run, e.workload, e.direction), e) then c
               else c.(observations := c.observations + [obs])
  {
    var c, key := After(fmt, run), ProposalKey(e.workload, e.direction);
    obs := GenerateObservation(key.name, e, now);
    RunTracks(fmt, run, e.workload, e.direction);
    PromotedIsOwnKey(c.policies, key);
    LearningExact(fmt, run, e.workload, e.direction, EventFlow(e).peer, EventFlow(e).port);
    LearnedLikeIff(fmt, EventsOf(fmt, run, e.workload, e.direction), e);
  }

  /** In particular, a flow to a peer whose labels format unlike those of every learned peer on
      that port is reported. */
  lemma UnlikeFlowReported(fmt: Formatter, run: seq<Step>, e: Event, now: int, writeOk: bool)
    requires ValidRun(run) && Learnable(e.workload.ownerKind, e.workload.ownerName, e.direction)
    requires var c, key := After(fmt, run), ProposalKey(e.workload, e.direction);
             key in c.policies && c.policies[key].spec.mode == MONITOR
    requires forall x :: x in EventsOf(fmt, run, e.workload, e.direction) &&
                         x.protocol == e.protocol && x.dstPort == e.dstPort ==>
                           fmt(Some(x.peer.selector)) != fmt(Some(e.peer.selector))
    ensures var seen := ObserveStep(fmt, After(fmt, run), e, now, writeOk).observations;
            && |seen| == |After(fmt, run).observations| + 1
            && Reports(seen[|seen| - 1], e, ProposalKey(e.workload, e.direction).name, now)
  {
    var obs := MonitorReportsUnlearned(fmt, run, e, now, writeOk);
  }

  // ----- promotion -----

  lemma {:induction false} KeptFromRun(fmt: Formatter, run: seq<Step>, w: WorkloadRef, direction: string)
    ensures forall e :: e in EventsOf(fmt, run, w, direction) ==>
                          exists i :: 0 <= i < |run| && run[i].Observe? && run[i].writeOk && run[i].e == e
  {
    if run != [] {
      var init := run[..|run| - 1];
      KeptFromRun(fmt, init, w, direction);
      forall e | e in EventsOf(fmt, run, w, direction)
        ensures exists i :: 0 <= i < |run| && run[i].Observe? && run[i].writeOk && run[i].e == e
      {
        if e in EventsOf(fmt, init, w, direction) {
          var i :| 0 <= i < |init| && init[i].Observe? && init[i].writeOk && init[i].e == e;
          assert run[i] == init[i];
        } else {
          assert run[|run| - 1].Observe? && run[|run| - 1].e == e;
        }
      }
    }
  }

  lemma FirstPopulated(fmt: Formatter, run: seq<Step>, w: WorkloadRef, direction: string)
    requires forall i :: 0 <= i < |run| && run[i].Observe? ==> SelectorPopulated(run[i].e.workload.selector)
    ensures var events := EventsOf(fmt, run, w, direction);
            events != [] ==> SelectorPopulated(events[0].workload.selector)
  {
    var events := EventsOf(fmt, run, w, direction);
    if events != [] {
      KeptFromRun(fmt, run, w, direction);
      assert events[0] in events;
    }
  }

  lemma TrackedAccepted(fmt: Formatter, c: Cluster, events: seq<Event>, w: WorkloadRef, direction: string)
    requires Tracks(fmt, c, events, w, direction) && Learnable(w.ownerKind, w.ownerName, direction)
    requires ProposalKey(w, direction) in c.policies
    requires events != [] ==> SelectorPopulated(events[0].workload.selector)
    ensures SchemaAccepts(c.policies[ProposalKey(w, direction)].spec)
  {
  }

  /** Promotion writes only policies the CRD schema accepts, as long as the learned workloads
      have labels. */
  lemma {:induction false} PromotedSchemaValid(fmt: Formatter, run: seq<Step>, w: WorkloadRef, direction: string)
    requires ValidRun(run) && Learnable(w.ownerKind, w.ownerName, direction)
    requires forall i :: 0 <= i < |run| && run[i].Observe? ==> SelectorPopulated(run[i].e.workload.selector)
    requires ProposalKey(w, direction) in After(fmt, run).policies
    ensures SchemaAccepts(After(fmt, run).policies[ProposalKey(w, direction)].spec)
  {
    RunTracks(fmt, run, w, direction);
    FirstPopulated(fmt, run, w, direction);
    TrackedAccepted(fmt, After(fmt, run), EventsOf(fmt, run, w, direction), w, direction);
  }

  ghost predicate Promotes(c: Cluster, key: NamespacedName, promote: Option<string>, env: Env) {
    && key in c.proposals && !env.terminating && (NamesWorkload(key.name) ==> env.ownershipOk && env.ownerExists)
    && env.listOk && env.createOk && key !in c.policies && |key.name| <= 63
    && (promote == Some("monitor") || promote == Some("protect"))
    && forall k :: k in c.policies && k.namespace == key.namespace ==>
                     PROMOTED_FROM_LABEL !in c.policies[k].labels ||
                     c.policies[k].labels[PROMOTED_FROM_LABEL] != key.name
  }

  /** The proposal's workload is gone, or a policy was already promoted from it. */
  ghost predicate Obsolete(c: Cluster, key: NamespacedName, env: Env) {
    && key in c.proposals && !env.terminating && (NamesWorkload(key.name) ==> env.ownershipOk)
    && (|| (NamesWorkload(key.name) && !env.ownerExists)
        || (env.listOk && exists k :: k in c.policies && k.namespace == key.namespace &&
                                      PROMOTED_FROM_LABEL in c.policies[k].labels &&
                                      c.policies[k].labels[PROMOTED_FROM_LABEL] == key.name))
  }

  /** What a proposal reconcile does, and exactly when: it creates one policy, of the proposal's
      name and spec in the mode asked for, labelled with the proposal; it deletes the proposal
      when it is promoted or obsolete; and it touches nothing else. */
  lemma PromotionIff(c: Cluster, key: NamespacedName, promote: Option<string>, env: Env)
    ensures var d := ProposalStep(c, key, promote, env);
            && d.observations == c.observations
            && d.proposals == (if (Promotes(c, key, promote, env) || Obsolete(c, key, env)) && env.deleteOk
                               then c.proposals - {key} else c.proposals)
            && (if Promotes(c, key, promote, env)
                then && d.policies.Keys == c.policies.Keys + {key}
                     && (forall k :: k in c.policies ==> d.policies[k] == c.policies[k])
                     && var p := d.policies[key];
                        && p.key == key && p.spec == c.proposals[key].(mode := promote.value)
                        && p.labels == map[PROMOTED_FROM_LABEL := key.name] && p.annotations == map[]
                        && !p.terminating && p.status.violationCount == 0 && p.status.violations == []
                        && p.status.acknowledged == [] && p.status.conditions == []
                else d.policies == c.policies)
  {
    var existing := PromotedFrom(c.policies, key.namespace, key.name);
    if existing != {} {
      var k :| k in existing;
      assert k in c.policies && k.namespace == key.namespace && PROMOTED_FROM_LABEL in c.policies[k].labels;
    }
    assert existing == {} <==> forall k :: k in c.policies && k.namespace == key.namespace ==>
                                             PROMOTED_FROM_LABEL !in c.policies[k].labels ||
                                             c.policies[k].labels[PROMOTED_FROM_LABEL] != key.name by {
      forall k | k in c.policies && k.namespace == key.namespace && PROMOTED_FROM_LABEL in c.policies[k].labels &&
                 c.policies[k].labels[PROMOTED_FROM_LABEL] == key.name
        ensures k in existing
      {
      }
    }
  }
}
