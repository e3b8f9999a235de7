/** The structural equalities on NetworkPolicy parts (api/v1alpha1/policy_helpers.go). */
module PolicyHelpers {
  import opened Api
  import opened Unordered

  predicate SelectorEqual(fmt: Formatter, a: Option<LabelSelector>, b: Option<LabelSelector>) {
    fmt(a) == fmt(b)
  }

  function StringEq(): (string, string) -> bool { (a, b) => a == b }

  predicate IPBlockEqual(a: Option<IPBlock>, b: Option<IPBlock>) {
    if a.None? || b.None? then a == b
    else a.value.cidr == b.value.cidr && EqualUnordered(a.value.except, b.value.except, StringEq())
  }

  predicate PeerEqual(fmt: Formatter, a: Peer, b: Peer) {
    && SelectorEqual(fmt, a.namespaceSelector, b.namespaceSelector)
    && SelectorEqual(fmt, a.podSelector, b.podSelector)
    && IPBlockEqual(a.ipBlock, b.ipBlock)
  }

  /** reflect.DeepEqual on ports: pointers are followed, so this is equality. */
  predicate PortEqual(a: Port, b: Port) { a == b }

  function PeerEq(fmt: Formatter): (Peer, Peer) -> bool { (a, b) => PeerEqual(fmt, a, b) }

  function PortEq(): (Port, Port) -> bool { (a, b) => PortEqual(a, b) }

  /** EgressRuleEqual and IngressRuleEqual: the same comparison on To and From. */
  predicate RuleEqual(fmt: Formatter, a: PeerRule, b: PeerRule) {
    && EqualUnordered(a.peers, b.peers, PeerEq(fmt))
    && EqualUnordered(a.ports, b.ports, PortEq())
  }

  function IPBlockEq(): (Option<IPBlock>, Option<IPBlock>) -> bool { (a, b) => IPBlockEqual(a, b) }

  function RuleEq(fmt: Formatter): (PeerRule, PeerRule) -> bool { (a, b) => RuleEqual(fmt, a, b) }

  lemma IPBlockEqualIsEquivalence()
    ensures Equivalence(IPBlockEq())
  {
    EqualUnorderedIsEquivalence(StringEq());
    var lifted := (a: seq<string>, b: seq<string>) => EqualUnordered(a, b, StringEq());
    ProductIsEquivalence(
      IPBlockEq(),
      (a: Option<IPBlock>) => if a.None? then None else Some(a.value.cidr),
      (x: Option<string>, y: Option<string>) => x == y,
      (a: Option<IPBlock>) => if a.None? then [] else a.value.except, lifted);
  }

  lemma PeerEqualIsEquivalence(fmt: Formatter)
    ensures Equivalence(PeerEq(fmt))
  {
    IPBlockEqualIsEquivalence();
    ProductIsEquivalence(
      PeerEq(fmt),
      (p: Peer) => (fmt(p.namespaceSelector), fmt(p.podSelector)), (x: (string, string), y: (string, string)) => x == y,
      (p: Peer) => p.ipBlock, IPBlockEq());
  }

  lemma RuleEqualIsEquivalence(fmt: Formatter)
    ensures Equivalence(RuleEq(fmt))
  {
    PeerEqualIsEquivalence(fmt);
    EqualUnorderedIsEquivalence(PeerEq(fmt));
    EqualUnorderedIsEquivalence(PortEq());
    var peers := (a: seq<Peer>, b: seq<Peer>) => EqualUnordered(a, b, PeerEq(fmt));
    var ports := (a: seq<Port>, b: seq<Port>) => EqualUnordered(a, b, PortEq());
    ProductIsEquivalence(RuleEq(fmt), (r: PeerRule) => r.peers, peers, (r: PeerRule) => r.ports, ports);
  }

  /** Unordered comparison with a one-element slice is comparison with its element. */
  lemma EqualUnorderedSingleton<T(!new)>(x: T, s: seq<T>, eq: (T, T) -> bool)
    requires Equivalence(eq)
    ensures EqualUnordered([x], s, eq) <==> |s| == 1 && eq(x, s[0])
  {
    EqualUnorderedIffMatchable([x], s, eq);
    if |s| == 1 && eq(x, s[0]) {
      assert Bijection([x], s, eq, [0]);
    }
  }

  // ----- what the equalities mean -----

  /** Two blocks are equal when they have the same range and the same exceptions, in any order. */
  lemma IPBlockEqualIff(a: Option<IPBlock>, b: Option<IPBlock>)
    ensures IPBlockEqual(a, b) <==>
            || (a.None? && b.None?)
            || (a.Some? && b.Some? && a.value.cidr == b.value.cidr &&
                multiset(a.value.except) == multiset(b.value.except))
  {
    if a.Some? && b.Some? {
      EqualUnorderedIsPermutation(a.value.except, b.value.except, StringEq());
    }
  }

  /** Two rules are equal when their ports are the same in any order, and their peers can be
      paired so that selectors format alike and IP blocks are equal. */
  lemma RuleEqualIff(fmt: Formatter, a: PeerRule, b: PeerRule)
    ensures RuleEqual(fmt, a, b) <==>
            multiset(a.ports) == multiset(b.ports) && Matchable(a.peers, b.peers, PeerEq(fmt))
    ensures forall p, q :: PeerEq(fmt)(p, q) <==>
                           && fmt(p.namespaceSelector) == fmt(q.namespaceSelector)
                           && fmt(p.podSelector) == fmt(q.podSelector) && IPBlockEqual(p.ipBlock, q.ipBlock)
  {
    PeerEqualIsEquivalence(fmt);
    EqualUnorderedIffMatchable(a.peers, b.peers, PeerEq(fmt));
    EqualUnorderedIsPermutation(a.ports, b.ports, PortEq());
  }
}
