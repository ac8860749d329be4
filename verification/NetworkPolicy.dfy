/** Standard networking.k8s.io/v1 NetworkPolicy objects and what they admit.

    A policy that selects a pod turns its ingress into an allow-list: a connection passes when
    one rule names both its source and its port. An empty `from` names every source, an empty
    `ports` every port, and `endPort` closes an inclusive range.
 */
module NetworkPolicies {
  import opened Kube
  import opened Wrappers

  datatype NetworkPolicyPort = NetworkPolicyPort(protocol: string, port: Int32, endPort: Option<Int32>)

  datatype NetworkPolicyPeer = NetworkPolicyPeer(namespaceSelector: LabelSelector)

  datatype IngressRule = IngressRule(from: seq<NetworkPolicyPeer>, ports: seq<NetworkPolicyPort>)

  datatype NetworkPolicySpec = NetworkPolicySpec(
    podSelector: LabelSelector, policyTypes: seq<string>, ingress: seq<IngressRule>)

  datatype OwnerReference = OwnerReference(
    apiVersion: string, kind: string, name: string, uid: string, blockOwnerDeletion: bool)

  datatype NetworkPolicy = NetworkPolicy(
    namespace: string, name: string, labels: Labels, annotations: Labels,
    ownerReferences: seq<OwnerReference>, spec: NetworkPolicySpec)

  /** One connection attempt: the labels of the source's namespace and the destination port. */
  datatype Traffic = Traffic(source: Labels, protocol: string, port: int)

  predicate PortMatches(p: NetworkPolicyPort, t: Traffic) {
    p.protocol == t.protocol && p.port <= t.port <= if p.endPort.Some? then p.endPort.value else p.port
  }

  predicate RuleAdmits(rule: IngressRule, t: Traffic) {
    && (rule.from == [] || exists peer | peer in rule.from :: SelectorMatches(peer.namespaceSelector, t.source))
    && (rule.ports == [] || exists p | p in rule.ports :: PortMatches(p, t))
  }

  predicate Admits(rules: seq<IngressRule>, t: Traffic) {
    exists rule | rule in rules :: RuleAdmits(rule, t)
  }

  /** What the namespace lets in when the policy is the only one in it; no policy isolates nothing. */
  predicate Verdict(policy: Option<NetworkPolicy>, t: Traffic) {
    policy.None? || Admits(policy.value.spec.ingress, t)
  }
}
