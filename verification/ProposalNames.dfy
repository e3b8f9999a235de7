/** Proposal names: getProposalName (internal/controller/workload_selectors.go) and its
    inverse ownerRefFromProposalName (workloadnetworkpolicyproposal_controller.go). */
module ProposalNames {
  import opened Api
  import opened Text

  function ProposalName(kind: string, name: string, direction: string): string {
    ToLower(kind) + "-" + name + "-" + ToLower(direction)
  }

  lemma LowerConstants()
    ensures ToLower(DEPLOYMENT) == "deployment"
    ensures ToLower(STATEFUL_SET) == "statefulset"
    ensures ToLower(DAEMON_SET) == "daemonset"
    ensures ToLower(INGRESS) == "ingress"
    ensures ToLower(EGRESS) == "egress"
  {
  }

  /** Two workload-direction pairs never share a proposal name. The first two
      characters give the kind and the seventh from the end the direction. */
  lemma ProposalNameInjective(k1: string, n1: string, d1: string, k2: string, n2: string, d2: string)
    requires Learnable(k1, n1, d1) && Learnable(k2, n2, d2)
    requires ProposalName(k1, n1, d1) == ProposalName(k2, n2, d2)
    ensures k1 == k2 && n1 == n2 && d1 == d2
  {
    KindFromPrefix(k1, n1, d1);
    KindFromPrefix(k2, n2, d2);
    DirectionFromSuffix(k1, n1, d1);
    DirectionFromSuffix(k2, n2, d2);
    NameBetween(k1, n1, d1);
    NameBetween(k2, n2, d2);
  }

  lemma KindFromPrefix(k: string, n: string, d: string)
    requires Learnable(k, n, d)
    ensures |ProposalName(k, n, d)| >= 2
    ensures k == if ProposalName(k, n, d)[0] == 's' then STATEFUL_SET
                 else if ProposalName(k, n, d)[1] == 'e' then DEPLOYMENT else DAEMON_SET
  {
    LowerConstants();
    assert ProposalName(k, n, d)[0] == ToLower(k)[0] && ProposalName(k, n, d)[1] == ToLower(k)[1];
  }

  lemma NameBetween(k: string, n: string, d: string)
    ensures var s := ProposalName(k, n, d);
            |s| == |k| + |n| + |d| + 2 && s[|k| + 1..|s| - |d| - 1] == n
  {
  }

  lemma DirectionFromSuffix(k: string, n: string, d: string)
    requires Learnable(k, n, d)
    ensures |ProposalName(k, n, d)| >= 7
    ensures d == if ProposalName(k, n, d)[|ProposalName(k, n, d)| - 7] == 'i' then INGRESS else EGRESS
  {
    LowerConstants();
  }

  const KNOWN_KINDS := [DEPLOYMENT, STATEFUL_SET, DAEMON_SET]
  const KNOWN_DIRECTIONS := [INGRESS, EGRESS]

  /** The codec's inverse: it answers exactly for the names the learner gives, and
      then with the namespace, kind and name that were encoded. */
  method OwnerRefFromProposalName(namespace: string, proposalName: string)
    returns (r: Option<(NamespacedName, string)>)
    ensures r.Some? ==>
              r.value.0.namespace == namespace &&
              exists d :: Learnable(r.value.1, r.value.0.name, d) &&
                          proposalName == ProposalName(r.value.1, r.value.0.name, d)
    ensures forall k, n, d :: Learnable(k, n, d) && proposalName == ProposalName(k, n, d) ==>
                                r == Some((NamespacedName(namespace, n), k))
  {
    LowerConstants();
    for i := 0 to |KNOWN_KINDS|
      invariant forall a, n, d :: 0 <= a < i && Learnable(KNOWN_KINDS[a], n, d) ==>
                                    proposalName != ProposalName(KNOWN_KINDS[a], n, d)
    {
      var kind := KNOWN_KINDS[i];
      var prefix := ToLower(kind) + "-";
      if HasPrefix(proposalName, prefix) {
        var rest := proposalName[|prefix|..];
        for j := 0 to |KNOWN_DIRECTIONS|
          invariant forall n, b :: 0 <= b < j && n != "" ==>
                                     proposalName != ProposalName(kind, n, KNOWN_DIRECTIONS[b])
        {
          var direction := KNOWN_DIRECTIONS[j];
          var suffix := "-" + ToLower(direction);
          if HasSuffix(rest, suffix) {
            var ownerName := rest[..|rest| - |suffix|];
            assert proposalName == prefix + ownerName + suffix == ProposalName(kind, ownerName, direction);
            if ownerName != "" {
              assert Learnable(kind, ownerName, direction);
              forall k, n, d | Learnable(k, n, d) && proposalName == ProposalName(k, n, d)
                ensures k == kind && n == ownerName
              {
                ProposalNameInjective(k, n, d, kind, ownerName, direction);
              }
              return Some((NamespacedName(namespace, ownerName), kind));
            }
          }
          forall n | n != ""
            ensures proposalName != ProposalName(kind, n, direction)
          {
            NameSplits(proposalName, kind, n, direction);
          }
        }
        assert KNOWN_DIRECTIONS[0] == INGRESS && KNOWN_DIRECTIONS[1] == EGRESS;
      } else {
        forall n, d | proposalName == ProposalName(kind, n, d)
          ensures false
        {
          NameSplits(proposalName, kind, n, d);
        }
      }
    }
    assert KNOWN_KINDS[0] == DEPLOYMENT && KNOWN_KINDS[1] == STATEFUL_SET && KNOWN_KINDS[2] == DAEMON_SET;
    r := None;
  }

  /** A proposal name starts with its kind prefix and ends with its direction suffix. */
  lemma NameSplits(s: string, kind: string, n: string, d: string)
    ensures s == ProposalName(kind, n, d) ==>
              var prefix, suffix := ToLower(kind) + "-", "-" + ToLower(d);
              HasPrefix(s, prefix) && HasSuffix(s[|prefix|..], suffix) &&
              s[|prefix|..][..|s| - |prefix| - |suffix|] == n
  {
  }
}
