/** The API objects of the controller, as values (api/v1alpha1). Go string types
    (kinds, directions, modes, backends, protocols) stay strings, pointers become
    options and timestamps become integers. */
module Api {

  datatype Option<+T> = None | Some(value: T)

  datatype NamespacedName = NamespacedName(namespace: string, name: string)

  const DEPLOYMENT := "Deployment"
  const STATEFUL_SET := "StatefulSet"
  const DAEMON_SET := "DaemonSet"
  const INGRESS := "Ingress"
  const EGRESS := "Egress"
  const MONITOR := "monitor"
  const PROTECT := "protect"
  const KUBERNETES := "kubernetes"
  const ISTIO := "istio"
  const PROMOTED_FROM_LABEL := "networkenforcer.kubewarden.io/promoted-from"
  const ACKNOWLEDGE_PREFIX := "networkenforcer.kubewarden.io/acknowledge-"
  const METADATA_NAME_LABEL := "kubernetes.io/metadata.name"

  predicate SupportedKind(kind: string) {
    kind == DEPLOYMENT || kind == STATEFUL_SET || kind == DAEMON_SET
  }

  // ----- selectors, peers and ports -----

  datatype LabelRequirement = LabelRequirement(key: string, operator: string, values: seq<string>)
  datatype LabelSelector = LabelSelector(matchLabels: map<string, string>, matchExpressions: seq<LabelRequirement>)

  /** metav1.FormatLabelSelector, which is not part of this model: every result
      below holds for every function from optional selectors to strings. */
  type Formatter = Option<LabelSelector> -> string

  datatype WorkloadRef = WorkloadRef(
    namespace: string, ownerKind: string, ownerName: string, identity: string, selector: LabelSelector)

  datatype IntOrString = IntOrString(kind: int, intVal: int, strVal: string)
  datatype IPBlock = IPBlock(cidr: string, except: seq<string>)
  datatype Peer = Peer(
    namespaceSelector: Option<LabelSelector>, podSelector: Option<LabelSelector>, ipBlock: Option<IPBlock>)
  datatype Port = Port(protocol: Option<string>, port: Option<IntOrString>, endPort: Option<int>)

  /** A NetworkPolicy ingress or egress rule; `peers` is From or To. */
  datatype PeerRule = PeerRule(peers: seq<Peer>, ports: seq<Port>)

  datatype NetworkPolicySpec = NetworkPolicySpec(
    podSelector: LabelSelector, policyTypes: seq<string>, ingress: seq<PeerRule>, egress: seq<PeerRule>)

  datatype IstioFrom = IstioFrom(principals: seq<string>)
  datatype IstioTo = IstioTo(ports: seq<string>)
  datatype IstioRule = IstioRule(froms: seq<IstioFrom>, tos: seq<IstioTo>)
  datatype IstioSpec = IstioSpec(selector: LabelSelector, rules: seq<IstioRule>)

  // ----- violations -----

  datatype ViolationInfo = ViolationInfo(
    timestamp: int, source: WorkloadRef, dest: WorkloadRef, protocol: string, dstPort: int, action: string,
    denyingNamespace: string, denyingName: string)

  datatype ViolationRecord = ViolationRecord(info: ViolationInfo, id: int)

  datatype Acknowledgement = Acknowledgement(violation: ViolationRecord, reason: string, acknowledgedAt: int)

  datatype Observation = Observation(info: ViolationInfo, provider: string, direction: string)

  // ----- WorkloadNetworkPolicy -----

  datatype TargetRef = TargetRef(kind: string, name: string)

  datatype PolicySpec = PolicySpec(
    backend: string, kubernetes: Option<NetworkPolicySpec>, istio: Option<IstioSpec>,
    targetRef: TargetRef, direction: string, mode: string)

  datatype Condition = Condition(conditionType: string, status: bool, reason: string, observedGeneration: int)

  datatype Status = Status(
    conditions: seq<Condition>, observedGeneration: int, violationCount: int, activeViolationCount: int,
    violations: seq<ViolationRecord>, acknowledged: seq<Acknowledgement>)

  datatype Policy = Policy(
    key: NamespacedName, uid: string, generation: int, creationTimestamp: int, terminating: bool,
    labels: map<string, string>, annotations: map<string, string>, spec: PolicySpec, status: Status)

  /** Schema rule of the CRD: the backend names the one populated payload. */
  predicate BackendPopulated(spec: PolicySpec) {
    && (spec.backend == KUBERNETES || spec.backend == ISTIO)
    && (spec.kubernetes.Some? <==> spec.backend == KUBERNETES)
    && (spec.istio.Some? <==> spec.backend == ISTIO)
  }

  /** A supported workload and a direction: what can be learned for and targeted. */
  predicate Learnable(kind: string, name: string, direction: string) {
    SupportedKind(kind) && name != "" && (direction == INGRESS || direction == EGRESS)
  }

  /** Schema rules of the CRD on spec.targetRef and spec.direction. */
  predicate TargetPopulated(spec: PolicySpec) {
    Learnable(spec.targetRef.kind, spec.targetRef.name, spec.direction)
  }

  predicate SelectorPopulated(s: LabelSelector) { s.matchLabels != map[] || s.matchExpressions != [] }

  /** All schema rules of the CRD on a policy spec. */
  predicate SchemaAccepts(spec: PolicySpec) {
    && BackendPopulated(spec) && TargetPopulated(spec) && (spec.mode == MONITOR || spec.mode == PROTECT)
    && (spec.kubernetes.Some? ==>
          SelectorPopulated(spec.kubernetes.value.podSelector) && spec.kubernetes.value.policyTypes == [spec.direction])
    && (spec.istio.Some? ==> SelectorPopulated(spec.istio.value.selector) && spec.direction == INGRESS)
  }
}
