/** Learned NetworkPolicy rules: the in-place upserts of
    internal/controller/learning_kubernetes.go and the coverage test of
    internal/controller/monitor_kubernetes.go. */
module KubernetesRules {
  import opened Api
  import opened PolicyHelpers

  function BuildPeer(peer: WorkloadRef): Peer {
    Peer(Some(LabelSelector(map[METADATA_NAME_LABEL := peer.namespace], [])), Some(peer.selector), None)
  }

  function BuildPort(protocol: string, dstPort: int): Port {
    Port(Some(protocol), Some(IntOrString(0, dstPort, "")), None)
  }

  predicate RuleHasPeer(fmt: Formatter, rule: PeerRule, peer: Peer) {
    |rule.peers| == 1 && PeerEqual(fmt, rule.peers[0], peer)
  }

  /** The meaning of a rule list: some single-peer rule lists the port. */
  ghost predicate Covers(fmt: Formatter, rules: seq<PeerRule>, peer: Peer, port: Port) {
    exists i :: 0 <= i < |rules| && RuleHasPeer(fmt, rules[i], peer) && port in rules[i].ports
  }

  method ContainsPeerPort(fmt: Formatter, rules: seq<PeerRule>, peer: Peer, port: Port) returns (found: bool)
    ensures found == Covers(fmt, rules, peer, port)
  {
    for i := 0 to |rules|
      invariant forall a :: 0 <= a < i ==> !(RuleHasPeer(fmt, rules[a], peer) && port in rules[a].ports)
    {
      if RuleHasPeer(fmt, rules[i], peer) {
        for j := 0 to |rules[i].ports|
          invariant forall b :: 0 <= b < j ==> rules[i].ports[b] != port
        {
          if PortEqual(rules[i].ports[j], port) {
            return true;
          }
        }
      }
    }
    return false;
  }

  /** Index of the first rule at or after i whose only peer equals `peer`, or |rules|. */
  function FirstRule(fmt: Formatter, rules: seq<PeerRule>, peer: Peer, i: nat): (k: nat)
    requires i <= |rules|
    ensures i <= k <= |rules|
    ensures k < |rules| ==> RuleHasPeer(fmt, rules[k], peer)
    decreases |rules| - i
  {
    if i == |rules| || RuleHasPeer(fmt, rules[i], peer) then i else FirstRule(fmt, rules, peer, i + 1)
  }

  function Upsert(fmt: Formatter, rules: seq<PeerRule>, peer: Peer, port: Port): seq<PeerRule> {
    var k := FirstRule(fmt, rules, peer, 0);
    if k == |rules| then rules + [PeerRule([peer], [port])]
    else if port in rules[k].ports then rules
    else rules[k := rules[k].(ports := rules[k].ports + [port])]
  }

  /** upsertEgressRuleByPeer and upsertIngressRuleByPeer. */
  method UpsertRuleByPeer(fmt: Formatter, rules: seq<PeerRule>, peer: Peer, port: Port)
    returns (updated: seq<PeerRule>)
    ensures updated == Upsert(fmt, rules, peer, port)
  {
    updated := rules;
    for i := 0 to |rules|
      invariant FirstRule(fmt, rules, peer, 0) == FirstRule(fmt, rules, peer, i)
      invariant updated == rules
    {
      if RuleHasPeer(fmt, rules[i], peer) {
        for j := 0 to |rules[i].ports|
          invariant forall b :: 0 <= b < j ==> rules[i].ports[b] != port
        {
          if PortEqual(rules[i].ports[j], port) {
            return;
          }
        }
        updated := updated[i := updated[i].(ports := updated[i].ports + [port])];
        return;
      }
    }
    updated := updated + [PeerRule([peer], [port])];
  }

  lemma PeerEqualTransfers(fmt: Formatter, a: Peer, b: Peer, q: Peer)
    requires PeerEqual(fmt, a, b)
    ensures PeerEqual(fmt, a, q) <==> PeerEqual(fmt, b, q)
  {
    PeerEqualIsEquivalence(fmt);
    var eq := PeerEq(fmt);
    assert eq(a, b) && eq(b, a);
    assert eq(a, q) == PeerEqual(fmt, a, q) && eq(b, q) == PeerEqual(fmt, b, q);
  }

  /** One learned flow widens the rules by that flow, up to peer equality, and by
      nothing else, whatever the rules were. */
  lemma UpsertExact(fmt: Formatter, rules: seq<PeerRule>, peer: Peer, port: Port, q: Peer, r: Port)
    ensures Covers(fmt, Upsert(fmt, rules, peer, port), q, r) <==>
            Covers(fmt, rules, q, r) || (PeerEqual(fmt, peer, q) && port == r)
  {
    var k := FirstRule(fmt, rules, peer, 0);
    var after := Upsert(fmt, rules, peer, port);
    if k == |rules| {
      assert forall i :: 0 <= i < |rules| ==> after[i] == rules[i];
      assert after[k] == PeerRule([peer], [port]);
    } else {
      PeerEqualTransfers(fmt, rules[k].peers[0], peer, q);
      assert port in after[k].ports && RuleHasPeer(fmt, after[k], peer);
      assert forall i :: 0 <= i < |rules| ==> after[i].peers == rules[i].peers;
      assert forall i :: 0 <= i < |rules| && r in rules[i].ports ==> r in after[i].ports;
    }
  }

  ghost predicate DistinctPorts(ports: seq<Port>) { forall i, j :: 0 <= i < j < |ports| ==> ports[i] != ports[j] }

  /** One rule per peer, one peer per rule, and every port listed once. */
  ghost predicate Tidy(fmt: Formatter, rules: seq<PeerRule>) {
    && (forall i :: 0 <= i < |rules| ==> |rules[i].peers| == 1 && DistinctPorts(rules[i].ports))
    && (forall i, j :: 0 <= i < j < |rules| ==> !PeerEqual(fmt, rules[i].peers[0], rules[j].peers[0]))
  }

  /** The rule is for that peer alone. */
  ghost predicate OnlyFor(fmt: Formatter, rule: PeerRule, peer: Peer) {
    |rule.peers| == 1 && PeerEqual(fmt, rule.peers[0], peer)
  }

  /** Learning never touches another rule: it appends one for a new peer, at the end, or else
      appends the port to the first rule for that peer alone, if it is not there yet. */
  lemma UpsertFrame(fmt: Formatter, rules: seq<PeerRule>, peer: Peer, port: Port)
    ensures var after := Upsert(fmt, rules, peer, port);
            && ((forall i :: 0 <= i < |rules| ==> !OnlyFor(fmt, rules[i], peer)) ==>
                  after == rules + [PeerRule([peer], [port])])
            && (forall k :: && 0 <= k < |rules| && OnlyFor(fmt, rules[k], peer)
                            && (forall j :: 0 <= j < k ==> !OnlyFor(fmt, rules[j], peer)) ==>
                  && |after| == |rules| && (forall i :: 0 <= i < |rules| && i != k ==> after[i] == rules[i])
                  && after[k].peers == rules[k].peers
                  && after[k].ports == if port in rules[k].ports then rules[k].ports else rules[k].ports + [port])
  {
    FirstRuleIsFirst(fmt, rules, peer, 0);
    var first := FirstRule(fmt, rules, peer, 0);
    assert forall i :: 0 <= i < |rules| ==> (OnlyFor(fmt, rules[i], peer) <==> RuleHasPeer(fmt, rules[i], peer));
    assert forall k :: && 0 <= k < |rules| && OnlyFor(fmt, rules[k], peer)
                       && (forall j :: 0 <= j < k ==> !OnlyFor(fmt, rules[j], peer)) ==>
                         k == first;
  }

  lemma UpsertTidy(fmt: Formatter, rules: seq<PeerRule>, peer: Peer, port: Port)
    requires Tidy(fmt, rules)
    ensures Tidy(fmt, Upsert(fmt, rules, peer, port))
  {
    FirstRuleIsFirst(fmt, rules, peer, 0);
  }

  lemma {:induction false} FirstRuleIsFirst(fmt: Formatter, rules: seq<PeerRule>, peer: Peer, i: nat)
    requires i <= |rules|
    ensures forall j :: i <= j < FirstRule(fmt, rules, peer, i) ==> !RuleHasPeer(fmt, rules[j], peer)
    decreases |rules| - i
  {
    if i < |rules| && !RuleHasPeer(fmt, rules[i], peer) {
      FirstRuleIsFirst(fmt, rules, peer, i + 1);
    }
  }

  lemma {:induction false} LearnAllTidy(fmt: Formatter, rules: seq<PeerRule>, flows: seq<Flow>)
    requires Tidy(fmt, rules)
    ensures Tidy(fmt, LearnAll(fmt, rules, flows))
  {
    if flows != [] {
      var init, last := flows[..|flows| - 1], flows[|flows| - 1];
      LearnAllTidy(fmt, rules, init);
      UpsertTidy(fmt, LearnAll(fmt, rules, init), last.peer, last.port);
    }
  }

  datatype Flow = Flow(peer: Peer, port: Port)

  /** The rules after a sequence of learned flows. */
  function LearnAll(fmt: Formatter, rules: seq<PeerRule>, flows: seq<Flow>): seq<PeerRule> {
    if flows == [] then rules
    else
      var last := flows[|flows| - 1];
      Upsert(fmt, LearnAll(fmt, rules, flows[..|flows| - 1]), last.peer, last.port)
  }

  ghost predicate Learned(fmt: Formatter, flows: seq<Flow>, q: Peer, r: Port) {
    exists i :: 0 <= i < |flows| && PeerEqual(fmt, flows[i].peer, q) && flows[i].port == r
  }

  /** Learning is exact over every sequence of flows, from every rule list. */
  lemma {:induction false} LearnAllExact(fmt: Formatter, rules: seq<PeerRule>, flows: seq<Flow>, q: Peer, r: Port)
    ensures Covers(fmt, LearnAll(fmt, rules, flows), q, r) <==>
            Covers(fmt, rules, q, r) || Learned(fmt, flows, q, r)
  {
    if flows != [] {
      var init, last := flows[..|flows| - 1], flows[|flows| - 1];
      LearnAllExact(fmt, rules, init, q, r);
      UpsertExact(fmt, LearnAll(fmt, rules, init), last.peer, last.port, q, r);
      assert Learned(fmt, init, q, r) ==> Learned(fmt, flows, q, r);
      assert flows == init + [last];
    }
  }
}
