/**
 * The records the analyser works on: the parts of the Kubernetes API objects
 * (core/v1 Pod and Namespace, networking/v1 NetworkPolicy) that the core reads,
 * and the analyser's own Pod wrapper, Connection and Payload records.
 */
module Types {
  import opened Wrappers

  /** A label map (`map[string]string` in the API objects; a nil map is the empty map). */
  type Labels = map<string, string>

  /** A label selector; only `MatchLabels` is ever read, `MatchExpressions` is not modelled. */
  datatype LabelSelector = LabelSelector(matchLabels: Labels)

  /** `IPBlock`: a CIDR and the addresses excepted from it, both as text. */
  datatype IPBlock = IPBlock(cidr: string, except: seq<string>)

  /** `NetworkPolicyPeer`: each of the three parts may be absent (nil). */
  datatype PolicyPeer = PolicyPeer(
    podSelector: Option<LabelSelector>,
    namespaceSelector: Option<LabelSelector>,
    ipBlock: Option<IPBlock>)

  /** `NetworkPolicyPort`; the analyser never looks inside a port. */
  datatype PolicyPort = PolicyPort(protocol: Option<string>, port: Option<string>)

  /** `NetworkPolicyIngressRule`. */
  datatype IngressRule = IngressRule(ports: seq<PolicyPort>, from: seq<PolicyPeer>)

  /** `NetworkPolicy`: object metadata and the spec fields the analyser reads. */
  datatype NetworkPolicy = NetworkPolicy(
    uid: string,
    name: string,
    namespace: string,
    podSelector: LabelSelector,
    policyTypes: seq<string>,
    ingress: seq<IngressRule>)

  /** `core.Namespace`: its name and labels. */
  datatype Namespace = Namespace(name: string, labels: Labels)

  /** The zero value of `core.Namespace`, which a Go map lookup yields for a missing key. */
  const ZeroNamespace := Namespace("", map[])

  /** `core.Pod`: name, namespace, labels, `Status.PodIP` and the UIDs of its owner references, in order. */
  datatype CorePod = CorePod(
    name: string,
    namespace: string,
    labels: Labels,
    podIP: string,
    ownerUIDs: seq<string>)

  /** The analyser's `Pod`: the API pod, its namespace record and the policies applied to it. */
  datatype Pod = Pod(pod: CorePod, namespace: Namespace, applied: seq<NetworkPolicy>)

  /** One allowed connection of the published graph. */
  datatype Connection = Connection(fromUID: string, toUID: string, networkPolicyUID: string)

  /** The published snapshot: pods grouped by namespace, the policies, the allowed connections. */
  datatype Payload = Payload(
    pods: map<string, seq<CorePod>>,
    networkPolicies: seq<NetworkPolicy>,
    allowedConnections: seq<Connection>)

  /** The zero value of `Payload`, held by a server that has not refreshed yet. */
  const EmptyPayload := Payload(map[], [], [])
}
