/** The decision of a learned Istio ruleset (istioRuleAllows* in
    api/v1alpha1/violation_record.go) and the learner that edits it in place
    (internal/controller/learning_istio.go). */
module IstioRules {
  import opened Api
  import opened Text

  // ----- the decision -----

  /** parseIstioPortRange */
  function ParsePortRange(portSpec: string): Option<(int, int)> {
    var (loStr, hiStr) := Cut(portSpec, '-');
    var lo := ParseInt(loStr, INT32_LIMIT);
    if lo.None? then None
    else if hiStr == "" then Some((lo.value, lo.value))
    else
      var hi := ParseInt(hiStr, INT32_LIMIT);
      if hi.None? then None else Some((lo.value, hi.value))
  }

  predicate PortMatches(portSpec: string, dstPort: int) {
    var range := ParsePortRange(portSpec);
    range.Some? && range.value.0 <= dstPort <= range.value.1
  }

  predicate FromAllows(from: IstioFrom, identity: string) {
    from.principals == [] || "*" in from.principals || identity in from.principals
  }

  predicate RuleAllowsSource(rule: IstioRule, identity: string) {
    rule.froms == [] || exists i :: 0 <= i < |rule.froms| && FromAllows(rule.froms[i], identity)
  }

  predicate ToAllows(to_: IstioTo, dstPort: int) {
    to_.ports == [] || exists i :: 0 <= i < |to_.ports| && PortMatches(to_.ports[i], dstPort)
  }

  predicate RuleAllowsPort(rule: IstioRule, dstPort: int) {
    rule.tos == [] || exists i :: 0 <= i < |rule.tos| && ToAllows(rule.tos[i], dstPort)
  }

  predicate RuleAllows(rule: IstioRule, identity: string, dstPort: int) {
    RuleAllowsSource(rule, identity) && RuleAllowsPort(rule, dstPort)
  }

  predicate Allows(rules: seq<IstioRule>, identity: string, dstPort: int) {
    exists i :: 0 <= i < |rules| && RuleAllows(rules[i], identity, dstPort)
  }

  /** Some From entry names the identity or "*", or is open, or there is none. */
  ghost predicate LetsIn(rule: IstioRule, identity: string) {
    rule.froms == [] ||
    exists f :: f in rule.froms && (f.principals == [] || exists p :: p in f.principals && (p == "*" || p == identity))
  }

  /** Some To entry lists a matching port or range, or is open, or there is none. */
  ghost predicate OpensPort(rule: IstioRule, dstPort: int) {
    rule.tos == [] ||
    exists t :: t in rule.tos && (t.ports == [] || exists p :: p in t.ports && PortMatches(p, dstPort))
  }

  lemma RuleAllowsIff(rule: IstioRule, identity: string, dstPort: int)
    ensures RuleAllows(rule, identity, dstPort) <==> LetsIn(rule, identity) && OpensPort(rule, dstPort)
  {
    if LetsIn(rule, identity) && rule.froms != [] {
      var f :| f in rule.froms && (f.principals == [] || exists p :: p in f.principals && (p == "*" || p == identity));
      assert FromAllows(f, identity);
    }
    if OpensPort(rule, dstPort) && rule.tos != [] {
      var t :| t in rule.tos && (t.ports == [] || exists p :: p in t.ports && PortMatches(p, dstPort));
      assert ToAllows(t, dstPort);
    }
  }

  /** A range "lo-hi" of ports matches exactly the ports from lo to hi. */
  lemma PortRangeMatches(lo: nat, hi: nat, r: int)
    requires lo < INT32_LIMIT && hi < INT32_LIMIT
    ensures PortMatches(FormatInt(lo) + "-" + FormatInt(hi), r) <==> lo <= r <= hi
    ensures PortMatches(FormatInt(lo) + "-", r) <==> r == lo
  {
    FormatNatHasNoDash(lo);
    CutAt(FormatInt(lo), '-', FormatInt(hi));
    CutAt(FormatInt(lo), '-', "");
    ParseFormat(lo, INT32_LIMIT);
    ParseFormat(hi, INT32_LIMIT);
    FormatNatParses(hi);
    assert FormatInt(lo) + "-" == FormatInt(lo) + ['-'] + "";
  }

  /** A learned int32 port, printed and read back as a range, matches itself and
      nothing else; a negative one reads as an open range and matches nothing. */
  lemma LearnedPortMatches(port: int, r: int)
    requires 0 - INT32_LIMIT <= port < INT32_LIMIT
    ensures PortMatches(FormatInt(port), r) <==> 0 <= port == r
  {
    if port >= 0 {
      FormatNatHasNoDash(port);
      CutAbsent(FormatInt(port), '-');
      ParseFormat(port, INT32_LIMIT);
    } else {
      assert FormatInt(port)[0] == '-';
      assert Cut(FormatInt(port), '-').0 == "";
    }
  }

  // ----- the learner -----

  predicate SinglePrincipal(rule: IstioRule, principal: string) {
    |rule.froms| == 1 && rule.froms[0].principals == [principal]
  }

  function FirstSingle(rules: seq<IstioRule>, principal: string, i: nat): (k: nat)
    requires i <= |rules|
    ensures i <= k <= |rules|
    ensures k < |rules| ==> SinglePrincipal(rules[k], principal)
    decreases |rules| - i
  {
    if i == |rules| || SinglePrincipal(rules[i], principal) then i else FirstSingle(rules, principal, i + 1)
  }

  predicate ListsPort(rule: IstioRule, port: string) {
    exists j :: 0 <= j < |rule.tos| && port in rule.tos[j].ports
  }

  function WithPort(rule: IstioRule, port: string): IstioRule {
    if rule.tos == [] then rule.(tos := [IstioTo([port])])
    else if ListsPort(rule, port) then rule
    else rule.(tos := rule.tos[0 := IstioTo(rule.tos[0].ports + [port])])
  }

  function Upsert(rules: seq<IstioRule>, principal: string, port: string): seq<IstioRule> {
    var k := FirstSingle(rules, principal, 0);
    if k == |rules| then rules + [IstioRule([IstioFrom([principal])], [IstioTo([port])])]
    else rules[k := WithPort(rules[k], port)]
  }

  /** A proposal's Istio payload, edited in place by the learner. */
  class IstioPayload {
    var spec: IstioSpec

    constructor (spec: IstioSpec)
      ensures this.spec == spec
    {
      this.spec := spec;
    }

    /** upsertIstioLearnedRule */
    method UpsertLearnedRule(principal: string, port: string)
      modifies this
      ensures spec == old(spec).(rules := Upsert(old(spec.rules), principal, port))
    {
      var rules := spec.rules;
      for i := 0 to |rules|
        invariant spec == old(spec) && rules == spec.rules
        invariant FirstSingle(rules, principal, 0) == FirstSingle(rules, principal, i)
      {
        var rule := rules[i];
        if SinglePrincipal(rule, principal) {
          if |rule.tos| == 0 {
            spec := spec.(rules := rules[i := rule.(tos := [IstioTo([port])])]);
            return;
          }
          for j := 0 to |rule.tos|
            invariant forall a :: 0 <= a < j ==> port !in rule.tos[a].ports
            invariant spec == old(spec)
          {
            if port in rule.tos[j].ports {
              assert rules[i := rule] == rules;
              return;
            }
          }
          var first := IstioTo(rule.tos[0].ports + [port]);
          spec := spec.(rules := rules[i := rule.(tos := rule.tos[0 := first])]);
          return;
        }
      }
      spec := spec.(rules := rules + [IstioRule([IstioFrom([principal])], [IstioTo([port])])]);
    }
  }

  // ----- what one learned port does to every decision -----

  /** The learned port narrows a rule that had no port list to that port, so any
      other port it let through is revoked unless something else still allows it. */
  ghost predicate Revoked(rules: seq<IstioRule>, principal: string, port: string, identity: string, r: int) {
    var k := FirstSingle(rules, principal, 0);
    && k < |rules|
    && (rules[k].tos == [] || (rules[k].tos[0].ports == [] && !ListsPort(rules[k], port)))
    && !(exists j :: 1 <= j < |rules[k].tos| && ToAllows(rules[k].tos[j], r))
    && !ElsewhereAllows(rules, k, identity, r)
  }

  lemma WithPortAllows(rule: IstioRule, port: int, r: int)
    requires 0 - INT32_LIMIT <= port < INT32_LIMIT
    ensures RuleAllowsPort(WithPort(rule, FormatInt(port)), r) <==>
            || 0 <= port == r
            || (exists j :: 1 <= j < |rule.tos| && ToAllows(rule.tos[j], r))
            || (&& rule.tos != [] && (ListsPort(rule, FormatInt(port)) || rule.tos[0].ports != [])
                && ToAllows(rule.tos[0], r))
  {
    var text := FormatInt(port);
    LearnedPortMatches(port, r);
    var after := WithPort(rule, text);
    if rule.tos == [] {
      assert after.tos[0].ports[0] == text;
    } else if ListsPort(rule, text) {
      var j :| 0 <= j < |rule.tos| && text in rule.tos[j].ports;
      var a :| 0 <= a < |rule.tos[j].ports| && rule.tos[j].ports[a] == text;
      assert 0 <= port == r ==> ToAllows(rule.tos[j], r);
    } else {
      var ports := rule.tos[0].ports;
      assert after.tos[0].ports == ports + [text];
      assert (ports + [text])[|ports|] == text;
      assert forall a :: 0 <= a < |ports| ==> (ports + [text])[a] == ports[a];
      assert ToAllows(after.tos[0], r) <==> 0 <= port == r || (ports != [] && ToAllows(rule.tos[0], r));
      assert forall j :: 1 <= j < |rule.tos| ==> after.tos[j] == rule.tos[j];
    }
  }

  lemma SingleSource(rule: IstioRule, principal: string, identity: string)
    requires SinglePrincipal(rule, principal)
    ensures RuleAllowsSource(rule, identity) <==> principal == "*" || principal == identity
  {
    assert rule.froms[0].principals[0] == principal;
    assert RuleAllowsSource(rule, identity) <==> FromAllows(rule.froms[0], identity);
  }

  /** Changing one rule changes the decision through that rule only. */
  lemma AllowsSplit(rules: seq<IstioRule>, k: nat, identity: string, r: int)
    requires k < |rules|
    ensures Allows(rules, identity, r) <==>
            RuleAllows(rules[k], identity, r) || ElsewhereAllows(rules, k, identity, r)
  {
  }

  /** No rule names just the principal: a new rule adds exactly the port. */
  lemma AppendDecision(rules: seq<IstioRule>, principal: string, port: int, identity: string, r: int)
    requires 0 - INT32_LIMIT <= port < INT32_LIMIT && FirstSingle(rules, principal, 0) == |rules|
    ensures Allows(Upsert(rules, principal, FormatInt(port)), identity, r) <==>
            Allows(rules, identity, r) || ((principal == "*" || principal == identity) && 0 <= port == r)
  {
    var text := FormatInt(port);
    var after := Upsert(rules, principal, text);
    var added := after[|rules|];
    SingleSource(added, principal, identity);
    LearnedPortMatches(port, r);
    assert added.tos[0].ports[0] == text;
    assert RuleAllowsPort(added, r) <==> 0 <= port == r;
    AllowsSplit(after, |rules|, identity, r);
    assert forall i :: 0 <= i < |rules| ==> after[i] == rules[i];
  }

  /** Some other rule of the set allows the pair. */
  ghost predicate ElsewhereAllows(rules: seq<IstioRule>, k: nat, identity: string, r: int) {
    exists i :: 0 <= i < |rules| && i != k && RuleAllows(rules[i], identity, r)
  }

  /** The first rule naming just the principal takes the port; the others decide as before. */
  lemma ReplaceDecision(rules: seq<IstioRule>, principal: string, port: int, identity: string, r: int)
    requires FirstSingle(rules, principal, 0) < |rules|
    ensures var k := FirstSingle(rules, principal, 0);
            var ours := principal == "*" || principal == identity;
            var after := WithPort(rules[k], FormatInt(port));
            && (Allows(rules, identity, r) <==>
                (ours && RuleAllowsPort(rules[k], r)) || ElsewhereAllows(rules, k, identity, r))
            && (Allows(Upsert(rules, principal, FormatInt(port)), identity, r) <==>
                (ours && RuleAllowsPort(after, r)) || ElsewhereAllows(rules, k, identity, r))
  {
    var k := FirstSingle(rules, principal, 0);
    var after := Upsert(rules, principal, FormatInt(port));
    SingleSource(rules[k], principal, identity);
    SingleSource(after[k], principal, identity);
    AllowsSplit(rules, k, identity, r);
    AllowsSplit(after, k, identity, r);
    assert forall i :: 0 <= i < |rules| && i != k ==> after[i] == rules[i];
  }

  lemma FirstToSplit(rule: IstioRule, r: int)
    ensures RuleAllowsPort(rule, r) <==>
            || rule.tos == []
            || ToAllows(rule.tos[0], r)
            || exists j :: 1 <= j < |rule.tos| && ToAllows(rule.tos[j], r)
  {
  }

  /** For every ruleset: learning (principal, port) leaves the decision of every
      identity other than the principal unchanged, and for the principal (or, for
      "*", everyone) adds exactly that port and revokes exactly the Revoked ones. */
  lemma UpsertDecision(rules: seq<IstioRule>, principal: string, port: int, identity: string, r: int)
    requires 0 - INT32_LIMIT <= port < INT32_LIMIT
    ensures var after := Allows(Upsert(rules, principal, FormatInt(port)), identity, r);
            if principal != "*" && identity != principal then after == Allows(rules, identity, r)
            else after <==>
                 0 <= port == r ||
                 (Allows(rules, identity, r) && !Revoked(rules, principal, FormatInt(port), identity, r))
  {
    var k := FirstSingle(rules, principal, 0);
    if k == |rules| {
      AppendDecision(rules, principal, port, identity, r);
    } else {
      ReplaceDecision(rules, principal, port, identity, r);
      WithPortAllows(rules[k], port, r);
      FirstToSplit(rules[k], r);
    }
  }

  /** A learned grant is never lost on the spot. */
  lemma LearnedIsAllowed(rules: seq<IstioRule>, principal: string, port: int)
    requires 0 <= port < INT32_LIMIT
    ensures Allows(Upsert(rules, principal, FormatInt(port)), principal, port)
  {
    UpsertDecision(rules, principal, port, principal, port);
  }

  /** Learning can narrow: a rule with no port list lets its principal reach every
      port, and learning port 80 leaves it port 80 only. */
  lemma LearningCanRevoke()
    ensures var open := [IstioRule([IstioFrom(["p"])], [])];
            Allows(open, "p", 443) && !Allows(Upsert(open, "p", FormatInt(80)), "p", 443)
  {
    var rule := IstioRule([IstioFrom(["p"])], []);
    SingleSource(rule, "p", "p");
    assert RuleAllows([rule][0], "p", 443);
    assert FirstSingle([rule], "p", 0) == 0;
    UpsertDecision([rule], "p", 80, "p", 443);
  }

  // ----- runs -----

  datatype Learning = Learning(principal: string, port: int)

  /** Every rule lists a port in its first To entry, as every learned rule does. */
  ghost predicate Closed(rules: seq<IstioRule>) {
    forall i :: 0 <= i < |rules| ==> rules[i].tos != [] && rules[i].tos[0].ports != []
  }

  ghost predicate Int32Ports(events: seq<Learning>) {
    forall i :: 0 <= i < |events| ==> 0 - INT32_LIMIT <= events[i].port < INT32_LIMIT
  }

  function LearnAll(rules: seq<IstioRule>, events: seq<Learning>): seq<IstioRule> {
    if events == [] then rules
    else
      var last := events[|events| - 1];
      Upsert(LearnAll(rules, events[..|events| - 1]), last.principal, FormatInt(last.port))
  }

  ghost predicate Grants(e: Learning, identity: string, r: int) {
    0 <= e.port == r && (e.principal == "*" || e.principal == identity)
  }

  ghost predicate Learned(events: seq<Learning>, identity: string, r: int) {
    exists i :: 0 <= i < |events| && Grants(events[i], identity, r)
  }

  lemma LearnOneExact(rules: seq<IstioRule>, e: Learning, identity: string, r: int)
    requires Closed(rules) && 0 - INT32_LIMIT <= e.port < INT32_LIMIT
    ensures var after := Upsert(rules, e.principal, FormatInt(e.port));
            Closed(after) && (Allows(after, identity, r) <==> Allows(rules, identity, r) || Grants(e, identity, r))
  {
    UpsertDecision(rules, e.principal, e.port, identity, r);
    assert !Revoked(rules, e.principal, FormatInt(e.port), identity, r);
  }

  lemma LearnedSnoc(events: seq<Learning>, identity: string, r: int)
    requires events != []
    ensures Learned(events, identity, r) <==>
            Learned(events[..|events| - 1], identity, r) || Grants(events[|events| - 1], identity, r)
  {
    var init := events[..|events| - 1];
    assert forall i :: 0 <= i < |init| ==> init[i] == events[i];
  }

  /** Learning is exact over every sequence of events: from any closed ruleset, and
      so from the empty one, the rules allow what they allowed plus what was learned. */
  lemma {:induction false} LearnAllExact(rules: seq<IstioRule>, events: seq<Learning>, identity: string, r: int)
    requires Closed(rules) && Int32Ports(events)
    ensures Closed(LearnAll(rules, events))
    ensures Allows(LearnAll(rules, events), identity, r) <==>
            Allows(rules, identity, r) || Learned(events, identity, r)
  {
    if events != [] {
      var init, last := events[..|events| - 1], events[|events| - 1];
      LearnAllExact(rules, init, identity, r);
      LearnOneExact(LearnAll(rules, init), last, identity, r);
      LearnedSnoc(events, identity, r);
    }
  }

  lemma LearnFromEmptyExact(events: seq<Learning>, identity: string, r: int)
    requires Int32Ports(events)
    ensures Allows(LearnAll([], events), identity, r) <==> Learned(events, identity, r)
  {
    LearnAllExact([], events, identity, r);
  }

  // ----- the shape of the rules -----

  /** Learning never touches another rule: it appends one for a new principal, at the end, or
      else gives the port to the first rule for that principal alone, in its first To entry,
      if no entry lists it yet. */
  lemma UpsertFrame(rules: seq<IstioRule>, principal: string, port: string)
    ensures var after := Upsert(rules, principal, port);
            && ((forall i :: 0 <= i < |rules| ==> rules[i].froms != [IstioFrom([principal])]) ==>
                  after == rules + [IstioRule([IstioFrom([principal])], [IstioTo([port])])])
            && (forall k :: && 0 <= k < |rules| && rules[k].froms == [IstioFrom([principal])]
                            && (forall j :: 0 <= j < k ==> rules[j].froms != [IstioFrom([principal])]) ==>
                  && |after| == |rules| && (forall i :: 0 <= i < |rules| && i != k ==> after[i] == rules[i])
                  && after[k].froms == rules[k].froms && GainsPort(rules[k].tos, after[k].tos, port))
  {
    FirstSingleIsFirst(rules, principal, 0);
    var first := FirstSingle(rules, principal, 0);
    forall i | 0 <= i < |rules|
      ensures SinglePrincipal(rules[i], principal) <==> rules[i].froms == [IstioFrom([principal])]
    {
      if SinglePrincipal(rules[i], principal) {
        assert rules[i].froms == [rules[i].froms[0]];
      }
    }
    assert forall k :: && 0 <= k < |rules| && rules[k].froms == [IstioFrom([principal])]
                       && (forall j :: 0 <= j < k ==> rules[j].froms != [IstioFrom([principal])]) ==>
                         k == first;
  }

  /** The first entry gains the port, unless some entry lists it. */
  ghost predicate GainsPort(tos: seq<IstioTo>, after: seq<IstioTo>, port: string) {
    if tos == [] then after == [IstioTo([port])]
    else if exists t :: t in tos && port in t.ports then after == tos
    else && |after| == |tos| && after[0].ports == tos[0].ports + [port]
         && forall i :: 1 <= i < |tos| ==> after[i] == tos[i]
  }

  lemma {:induction false} FirstSingleIsFirst(rules: seq<IstioRule>, principal: string, i: nat)
    requires i <= |rules|
    ensures forall j :: i <= j < FirstSingle(rules, principal, i) ==> !SinglePrincipal(rules[j], principal)
    decreases |rules| - i
  {
    if i < |rules| && !SinglePrincipal(rules[i], principal) {
      FirstSingleIsFirst(rules, principal, i + 1);
    }
  }
}
