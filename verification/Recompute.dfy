/** RecomputeStatus (api/v1alpha1/violation_record.go): merge the scraped batch, clear
    the violations the policy now allows, move the acknowledged ones. */
module Recompute {
  import opened Api
  import opened Text
  import opened PolicyHelpers
  import opened Newest
  import opened Seqs
  import opened Merge
  import IstioRules
  import KubernetesRules

  // ----- clear -----

  function NamespacePeer(namespace: string): Peer {
    Peer(Some(LabelSelector(map[METADATA_NAME_LABEL := namespace], [])), None, None)
  }

  function FlowPort(v: ViolationRecord): Port { KubernetesRules.BuildPort(v.info.protocol, v.info.dstPort) }

  function ToEgressRule(v: ViolationRecord): PeerRule {
    PeerRule([NamespacePeer(v.info.dest.namespace)], [FlowPort(v)])
  }

  function ToIngressRule(v: ViolationRecord): PeerRule {
    PeerRule([NamespacePeer(v.info.source.namespace)], [FlowPort(v)])
  }

  predicate AllowedByKubernetes(fmt: Formatter, spec: NetworkPolicySpec, v: ViolationRecord) {
    || (exists i :: 0 <= i < |spec.ingress| && RuleEqual(fmt, ToIngressRule(v), spec.ingress[i]))
    || (exists i :: 0 <= i < |spec.egress| && RuleEqual(fmt, ToEgressRule(v), spec.egress[i]))
  }

  /** The flow of v is permitted by the policy template. */
  predicate Allowed(fmt: Formatter, spec: PolicySpec, v: ViolationRecord) {
    if spec.backend == KUBERNETES then spec.kubernetes.Some? && AllowedByKubernetes(fmt, spec.kubernetes.value, v)
    else spec.backend == ISTIO && spec.istio.Some? &&
         IstioRules.Allows(spec.istio.value.rules, v.info.source.identity, v.info.dstPort)
  }

  /** A Kubernetes rule clears a violation exactly when it names one peer, the whole
      namespace of the other side, and one port, that of the flow. */
  lemma RuleClears(fmt: Formatter, namespace: string, port: Port, rule: PeerRule)
    ensures RuleEqual(fmt, PeerRule([NamespacePeer(namespace)], [port]), rule) <==>
            && |rule.peers| == 1 && PeerEqual(fmt, NamespacePeer(namespace), rule.peers[0])
            && |rule.ports| == 1 && rule.ports[0] == port
  {
    PeerEqualIsEquivalence(fmt);
    EqualUnorderedSingleton(NamespacePeer(namespace), rule.peers, PeerEq(fmt));
    EqualUnorderedSingleton(port, rule.ports, PortEq());
  }

  /** The rule is for exactly one peer, all Pods of the namespace, and for exactly the port. */
  ghost predicate IsForNamespace(fmt: Formatter, rule: PeerRule, namespace: string, protocol: string, dstPort: int) {
    && |rule.peers| == 1 && rule.peers[0].ipBlock.None?
    && fmt(rule.peers[0].namespaceSelector) == fmt(Some(LabelSelector(map[METADATA_NAME_LABEL := namespace], [])))
    && fmt(rule.peers[0].podSelector) == fmt(None)
    && rule.ports == [Port(Some(protocol), Some(IntOrString(0, dstPort, "")), None)]
  }

  lemma RuleClearsIff(fmt: Formatter, rule: PeerRule, namespace: string, v: ViolationRecord)
    ensures RuleEqual(fmt, PeerRule([NamespacePeer(namespace)], [FlowPort(v)]), rule) <==>
            IsForNamespace(fmt, rule, namespace, v.info.protocol, v.info.dstPort)
  {
    RuleClears(fmt, namespace, FlowPort(v), rule);
  }

  /** A Kubernetes policy allows a violation exactly when an ingress rule is for the namespace
      of its source, or an egress rule for that of its destination, on its port. */
  lemma KubernetesAllowedIff(fmt: Formatter, spec: PolicySpec, v: ViolationRecord)
    requires spec.backend == KUBERNETES && spec.kubernetes.Some?
    ensures var rules, i := spec.kubernetes.value, v.info;
            Allowed(fmt, spec, v) <==>
            || (exists r :: r in rules.ingress && IsForNamespace(fmt, r, i.source.namespace, i.protocol, i.dstPort))
            || (exists r :: r in rules.egress && IsForNamespace(fmt, r, i.dest.namespace, i.protocol, i.dstPort))
  {
    forall r
      ensures RuleEqual(fmt, ToIngressRule(v), r) <==>
              IsForNamespace(fmt, r, v.info.source.namespace, v.info.protocol, v.info.dstPort)
      ensures RuleEqual(fmt, ToEgressRule(v), r) <==>
              IsForNamespace(fmt, r, v.info.dest.namespace, v.info.protocol, v.info.dstPort)
    {
      RuleClearsIff(fmt, r, v.info.source.namespace, v);
      RuleClearsIff(fmt, r, v.info.dest.namespace, v);
    }
  }

  /** An Istio policy allows a violation exactly when one rule allows both the identity of its
      source and its port. */
  lemma IstioAllowedIff(fmt: Formatter, spec: PolicySpec, v: ViolationRecord)
    requires spec.backend == ISTIO && spec.istio.Some?
    ensures Allowed(fmt, spec, v) <==>
            exists r :: r in spec.istio.value.rules &&
                        IstioRules.LetsIn(r, v.info.source.identity) && IstioRules.OpensPort(r, v.info.dstPort)
  {
    var rules, id, port := spec.istio.value.rules, v.info.source.identity, v.info.dstPort;
    forall i | 0 <= i < |rules|
      ensures IstioRules.RuleAllows(rules[i], id, port) <==>
              IstioRules.LetsIn(rules[i], id) && IstioRules.OpensPort(rules[i], port)
    {
      IstioRules.RuleAllowsIff(rules[i], id, port);
    }
  }

  // ----- acknowledge -----

  datatype AckInfo = AckInfo(annotation: string, reason: string)

  /** The violation ID an annotation key acknowledges. */
  function AckId(annotation: string): Option<int> {
    if HasPrefix(annotation, ACKNOWLEDGE_PREFIX)
    then ParseInt(annotation[|ACKNOWLEDGE_PREFIX|..], INT64_LIMIT) else None
  }

  /** An annotation acknowledges an ID exactly when its key is the prefix and a text of the ID. */
  lemma AckIdIff(annotation: string, id: int)
    ensures AckId(annotation) == Some(id) <==>
            && 0 - INT64_LIMIT <= id < INT64_LIMIT
            && exists t :: annotation == "networkenforcer.kubewarden.io/acknowledge-" + t && Spells(t, id)
  {
    if HasPrefix(annotation, ACKNOWLEDGE_PREFIX) {
      var t := annotation[|ACKNOWLEDGE_PREFIX|..];
      assert annotation == ACKNOWLEDGE_PREFIX + t;
      ParseIntIff(t, INT64_LIMIT, id);
      assert forall u :: annotation == ACKNOWLEDGE_PREFIX + u ==> u == t;
    }
  }

  /** The map the code builds by iterating over the annotations: several keys, such as
      those ending in 1 and 01, can name one ID, and iteration order picks one. */
  ghost predicate AckChoice(annotations: map<string, string>, acks: map<int, AckInfo>) {
    && (forall k :: k in annotations && AckId(k).Some? ==> AckId(k).value in acks)
    && (forall id :: id in acks ==>
                       var info := acks[id];
                       info.annotation in annotations && AckId(info.annotation) == Some(id) &&
                       info.reason == annotations[info.annotation])
  }

  method CollectAcknowledgements(annotations: map<string, string>) returns (acks: map<int, AckInfo>)
    ensures AckChoice(annotations, acks)
  {
    acks := map[];
    var rest := annotations.Keys;
    while rest != {}
      invariant rest <= annotations.Keys
      invariant AckChoice(annotations - rest, acks)
      decreases rest
    {
      var k :| k in rest;
      if AckId(k).Some? {
        acks := acks[AckId(k).value := AckInfo(k, annotations[k])];
      }
      rest := rest - {k};
    }
    assert annotations - {} == annotations;
  }

  // ----- the recomputed policy -----

  function Kept(fmt: Formatter, spec: PolicySpec): ViolationRecord -> bool { v => !Allowed(fmt, spec, v) }
  function Cleared(fmt: Formatter, spec: PolicySpec): ViolationRecord -> bool { v => Allowed(fmt, spec, v) }
  function Named(acks: map<int, AckInfo>): ViolationRecord -> bool { (v: ViolationRecord) => v.id in acks }
  function Unnamed(acks: map<int, AckInfo>): ViolationRecord -> bool { (v: ViolationRecord) => v.id !in acks }

  function Acknowledge(acks: map<int, AckInfo>, now: int): ViolationRecord -> Acknowledgement {
    (v: ViolationRecord) => Acknowledgement(v, if v.id in acks then acks[v.id].reason else "", now)
  }

  function AckedAt(): Acknowledgement -> int { (a: Acknowledgement) => a.acknowledgedAt }
  function AckedId(): Acknowledgement -> int { (a: Acknowledgement) => a.violation.id }

  ghost function MergedOf(status: Status, batch: seq<ViolationRecord>): seq<ViolationRecord> {
    Merged(Violations(), status.violations, status.violationCount, batch)
  }

  ghost function Uncleared(fmt: Formatter, p: Policy, batch: seq<ViolationRecord>): seq<ViolationRecord> {
    Filter(MergedOf(p.status, batch), Kept(fmt, p.spec))
  }

  ghost function Remaining(fmt: Formatter, p: Policy, batch: seq<ViolationRecord>, acks: map<int, AckInfo>):
    seq<ViolationRecord>
  {
    Filter(Uncleared(fmt, p, batch), Unnamed(acks))
  }

  ghost function Taken(fmt: Formatter, p: Policy, batch: seq<ViolationRecord>, acks: map<int, AckInfo>):
    seq<ViolationRecord>
  {
    Filter(Uncleared(fmt, p, batch), Named(acks))
  }

  /** What RecomputeStatus returns: the records acknowledged now. */
  ghost function Returned(
    fmt: Formatter, p: Policy, batch: seq<ViolationRecord>, now: int, acks: map<int, AckInfo>): seq<Acknowledgement>
  {
    Map(Taken(fmt, p, batch, acks), Acknowledge(acks, now))
  }

  ghost function Consumed(taken: seq<ViolationRecord>, acks: map<int, AckInfo>): set<string> {
    set i | 0 <= i < |taken| && taken[i].id in acks :: acks[taken[i].id].annotation
  }

  lemma ConsumedSnoc(taken: seq<ViolationRecord>, v: ViolationRecord, acks: map<int, AckInfo>)
    requires v.id in acks
    ensures Consumed(taken + [v], acks) == Consumed(taken, acks) + {acks[v.id].annotation}
  {
    var longer := taken + [v];
    assert longer[|taken|] == v;
    forall k | k in Consumed(taken, acks)
      ensures k in Consumed(longer, acks)
    {
      var i :| 0 <= i < |taken| && taken[i].id in acks && k == acks[taken[i].id].annotation;
      assert longer[i] == taken[i];
    }
  }

  ghost function StoredAcks(
    fmt: Formatter, p: Policy, batch: seq<ViolationRecord>, now: int, acks: map<int, AckInfo>): seq<Acknowledgement>
  {
    if acks == map[] then p.status.acknowledged
    else Trim(Sort(p.status.acknowledged + Returned(fmt, p, batch, now, acks), AckedAt()))
  }

  /** The policy after RecomputeStatus, for one choice of acknowledgement map. */
  ghost function Recomputed(
    fmt: Formatter, p: Policy, batch: seq<ViolationRecord>, now: int, acks: map<int, AckInfo>): Policy
  {
    var active := Remaining(fmt, p, batch, acks);
    p.(annotations := p.annotations - Consumed(Taken(fmt, p, batch, acks), acks),
       status := Status(
         p.status.conditions, p.generation, p.status.violationCount + |batch|, |active|, active,
         StoredAcks(fmt, p, batch, now, acks)))
  }

  lemma AckStage(
    fmt: Formatter, p: Policy, batch: seq<ViolationRecord>, now: int, acks: map<int, AckInfo>,
    uncleared: seq<ViolationRecord>, returned: seq<Acknowledgement>)
    requires uncleared == Uncleared(fmt, p, batch)
    requires returned == Map(Filter(uncleared, Named(acks)), Acknowledge(acks, now))
    ensures Filter(uncleared, Unnamed(acks)) == Remaining(fmt, p, batch, acks)
    ensures Filter(uncleared, Named(acks)) == Taken(fmt, p, batch, acks)
    ensures returned == Returned(fmt, p, batch, now, acks)
    ensures StoredAcks(fmt, p, batch, now, acks) ==
            if acks == map[] then p.status.acknowledged
            else Trim(Sort(p.status.acknowledged + returned, AckedAt()))
  {
  }

  lemma Assembled(
    fmt: Formatter, p: Policy, batch: seq<ViolationRecord>, now: int, acks: map<int, AckInfo>, q: Policy)
    requires q == p.(annotations := q.annotations, status := q.status)
    requires q.annotations == p.annotations - Consumed(Taken(fmt, p, batch, acks), acks)
    requires q.status.violations == Remaining(fmt, p, batch, acks)
    requires q.status.acknowledged == StoredAcks(fmt, p, batch, now, acks)
    requires q.status.conditions == p.status.conditions && q.status.observedGeneration == p.generation
    requires q.status.violationCount == p.status.violationCount + |batch|
    requires q.status.activeViolationCount == |q.status.violations|
    ensures q == Recomputed(fmt, p, batch, now, acks)
  {
  }

  // ----- the code, on a mutable copy of the policy -----

  class PolicyObject {
    const fmt: Formatter
    const base: Policy
    var annotations: map<string, string>
    var violations: seq<ViolationRecord>
    var acknowledged: seq<Acknowledgement>
    var violationCount: int
    var activeViolationCount: int
    var observedGeneration: int

    /** DeepCopy */
    constructor (fmt: Formatter, p: Policy)
      ensures this.fmt == fmt && base == p && Value() == p
    {
      this.fmt, base := fmt, p;
      annotations, violations, acknowledged := p.annotations, p.status.violations, p.status.acknowledged;
      violationCount, activeViolationCount := p.status.violationCount, p.status.activeViolationCount;
      observedGeneration := p.status.observedGeneration;
    }

    function Value(): Policy
      reads this
    {
      base.(annotations := annotations,
            status := Status(base.status.conditions, observedGeneration, violationCount, activeViolationCount,
                             violations, acknowledged))
    }

    method MergeScrapedViolations(scraped: seq<ViolationRecord>)
      modifies this`violations, this`violationCount
      ensures violations == Merged(Violations(), old(violations), old(violationCount), scraped)
      ensures violationCount == old(violationCount) + |scraped|
    {
      ViolationsLawful();
      violations, violationCount := MergeScraped(Violations(), violations, violationCount, scraped);
    }

    /** clearAllowedViolations, both backends: slices.DeleteFunc with the allow test. */
    method ClearAllowedViolations()
      requires BackendPopulated(base.spec)
      modifies this`violations
      ensures violations == Filter(old(violations), Kept(fmt, base.spec))
    {
      var kept: seq<ViolationRecord> := [];
      for i := 0 to |violations|
        invariant kept == FilterTo(violations, Kept(fmt, base.spec), i) && violations == old(violations)
      {
        if !Allowed(fmt, base.spec, violations[i]) {
          kept := kept + [violations[i]];
        }
      }
      violations := kept;
    }

    /** The DeleteFunc of acknowledgeViolationsFromAnnotations: it drops the named
        records, records their acknowledgements and deletes the annotations used. */
    method MoveAcknowledged(acks: map<int, AckInfo>, now: int) returns (returned: seq<Acknowledgement>)
      modifies this`violations, this`acknowledged, this`annotations
      ensures violations == Filter(old(violations), Unnamed(acks))
      ensures returned == Map(Filter(old(violations), Named(acks)), Acknowledge(acks, now))
      ensures annotations == old(annotations) - Consumed(Filter(old(violations), Named(acks)), acks)
      ensures acknowledged == old(acknowledged) + returned
    {
      returned := [];
      var kept: seq<ViolationRecord> := [];
      ghost var taken: seq<ViolationRecord> := [];
      for i := 0 to |violations|
        invariant violations == old(violations)
        invariant kept == FilterTo(violations, Unnamed(acks), i)
        invariant taken == FilterTo(violations, Named(acks), i)
        invariant returned == Map(taken, Acknowledge(acks, now))
        invariant acknowledged == old(acknowledged) + returned
        invariant annotations == old(annotations) - Consumed(taken, acks)
      {
        var v := violations[i];
        if v.id in acks {
          ConsumedSnoc(taken, v, acks);
          MapSnoc(taken, v, Acknowledge(acks, now));
          annotations := annotations - {acks[v.id].annotation};
          var ack := Acknowledgement(v, acks[v.id].reason, now);
          returned := returned + [ack];
          acknowledged := acknowledged + [ack];
          taken := taken + [v];
        } else {
          kept := kept + [v];
        }
      }
      violations := kept;
    }

    method AcknowledgeViolationsFromAnnotations(now: int)
      returns (returned: seq<Acknowledgement>, ghost acks: map<int, AckInfo>)
      modifies this`violations, this`acknowledged, this`annotations
      ensures AckChoice(old(annotations), acks)
      ensures violations == Filter(old(violations), Unnamed(acks))
      ensures returned == Map(Filter(old(violations), Named(acks)), Acknowledge(acks, now))
      ensures annotations == old(annotations) - Consumed(Filter(old(violations), Named(acks)), acks)
      ensures acknowledged == if acks == map[] then old(acknowledged)
                              else Trim(Sort(old(acknowledged) + returned, AckedAt()))
    {
      var acknowledges := CollectAcknowledgements(annotations);
      acks := acknowledges;
      if acknowledges == map[] {
        FilterAll(violations, Unnamed(acks));
        FilterNone(violations, Named(acks));
        return [], acks;
      }
      returned := MoveAcknowledged(acknowledges, now);
      acknowledged := SortStable(acknowledged, AckedAt());
      if |acknowledged| > MAX_VIOLATION_RECORDS {
        acknowledged := acknowledged[..MAX_VIOLATION_RECORDS];
      }
    }

    /** The first two stages of RecomputeStatus. */
    method MergeAndClear(scraped: seq<ViolationRecord>)
      requires BackendPopulated(base.spec)
      modifies this`violations, this`violationCount
      ensures violations == Uncleared(fmt, old(Value()), scraped)
      ensures violationCount == old(violationCount) + |scraped|
    {
      MergeScrapedViolations(scraped);
      ClearAllowedViolations();
    }

    method RecomputeStatus(scraped: seq<ViolationRecord>, now: int)
      returns (returned: seq<Acknowledgement>, ghost acks: map<int, AckInfo>)
      requires BackendPopulated(base.spec)
      modifies this
      ensures AckChoice(old(annotations), acks)
      ensures Value() == Recomputed(fmt, old(Value()), scraped, now, acks)
      ensures returned == Returned(fmt, old(Value()), scraped, now, acks)
    {
      ghost var p := Value();
      MergeAndClear(scraped);
      ghost var uncleared := violations;
      returned, acks := AcknowledgeViolationsFromAnnotations(now);
      AckStage(fmt, p, scraped, now, acks, uncleared, returned);
      activeViolationCount := |violations|;
      observedGeneration := base.generation;
      Assembled(fmt, p, scraped, now, acks, Value());
    }
  }
}
