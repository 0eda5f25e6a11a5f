/**
 * The reachability evaluator: may `src` open a connection to `dst` under the
 * ingress policies applied to `dst`? The recursive functions below are the
 * specification; `PodAllowedToConnect` is the nested-loop evaluation and is
 * proved to compute exactly `Allowed`.
 */
module Evaluator {
  import opened Wrappers
  import opened Types
  import opened Helpers
  import IPNet

  const Ingress := "Ingress"

  /** `contains`: linear search of a policy-type list. */
  method Contains(types: seq<string>, x: string) returns (found: bool)
    ensures found <==> x in types
  {
    for i := 0 to |types|
      invariant x !in types[..i]
    {
      if x == types[i] {
        return true;
      }
    }
    return false;
  }

  /** Source and destination have the same name and namespace. */
  predicate SamePod(dst: Pod, src: Pod) {
    dst.pod.name == src.pod.name && dst.pod.namespace == src.pod.namespace
  }

  /** A rule whose protobuf encoding is empty (`Size() == 0`): no ports and no peers. */
  predicate AdmitsAll(rule: IngressRule) {
    rule.ports == [] && rule.from == []
  }

  /**
   * The IP-block sub-test: the CIDR must parse, the source address must lie in
   * it, and the source address text must not equal any excepted entry.
   */
  predicate IPBlockAdmits(block: IPBlock, sourceIP: string) {
    match IPNet.ParseCIDR(block.cidr)
    case None => false
    case Some(network) => IPNet.Contains(network, IPNet.ParseIP(sourceIP)) && sourceIP !in block.except
  }

  /**
   * A peer admits the source when every sub-test it carries passes; a peer
   * without a namespace selector (whatever else it carries) also demands that
   * source and destination share a namespace.
   */
  predicate PeerAdmits(peer: PolicyPeer, dst: Pod, src: Pod) {
    && (peer.ipBlock.Some? ==> IPBlockAdmits(peer.ipBlock.value, src.pod.podIP))
    && (peer.podSelector.Some? ==> SubMap(peer.podSelector.value.matchLabels, src.pod.labels))
    && (if peer.namespaceSelector.Some?
        then SubMap(peer.namespaceSelector.value.matchLabels, src.namespace.labels)
        else dst.pod.namespace == src.pod.namespace)
  }

  predicate RuleAdmits(rule: IngressRule, dst: Pod, src: Pod) {
    AdmitsAll(rule) || exists peer :: peer in rule.from && PeerAdmits(peer, dst, src)
  }

  /** An Ingress-typed policy with some rule admitting the source. */
  predicate PolicyAdmits(policy: NetworkPolicy, dst: Pod, src: Pod) {
    Ingress in policy.policyTypes && exists rule :: rule in policy.ingress && RuleAdmits(rule, dst, src)
  }

  /** The index of the first policy at or after `from` that admits the source, if any. */
  function FirstAdmitting(policies: seq<NetworkPolicy>, from: nat, dst: Pod, src: Pod): (r: Option<nat>)
    requires from <= |policies|
    ensures r.Some? ==> from <= r.value < |policies| && PolicyAdmits(policies[r.value], dst, src)
    ensures r.Some? ==> forall j :: from <= j < r.value ==> !PolicyAdmits(policies[j], dst, src)
    ensures r.None? ==> forall j :: from <= j < |policies| ==> !PolicyAdmits(policies[j], dst, src)
    decreases |policies| - from
  {
    if from == |policies| then None
    else if PolicyAdmits(policies[from], dst, src) then Some(from)
    else FirstAdmitting(policies, from + 1, dst, src)
  }

  /** `PodAllowedToConnect` as a specification: the self case, else the first admitting policy. */
  function Allowed(dst: Pod, src: Pod): (bool, Option<NetworkPolicy>) {
    if SamePod(dst, src) then (true, None)
    else match FirstAdmitting(dst.applied, 0, dst, src)
      case Some(k) => (true, Some(dst.applied[k]))
      case None => (false, None)
  }

  /**
   * What the evaluator promises: the self case is allowed with no policy;
   * otherwise a policy is returned exactly when the connection is allowed,
   * which is exactly when some applied policy admits the source, and it is
   * the first such policy in applied order, an Ingress-typed one. A
   * destination without applied policies is therefore unreachable.
   */
  lemma AllowedSpec(dst: Pod, src: Pod)
    ensures SamePod(dst, src) ==> Allowed(dst, src) == (true, None)
    ensures !SamePod(dst, src) ==> (Allowed(dst, src).0 <==> Allowed(dst, src).1.Some?)
    ensures !SamePod(dst, src) ==>
      (Allowed(dst, src).0 <==> exists p :: p in dst.applied && PolicyAdmits(p, dst, src))
    ensures Allowed(dst, src).1.Some? ==>
      Allowed(dst, src).1.value in dst.applied && Ingress in Allowed(dst, src).1.value.policyTypes
    ensures Allowed(dst, src).1.Some? ==>
      exists k :: 0 <= k < |dst.applied| && dst.applied[k] == Allowed(dst, src).1.value
                  && PolicyAdmits(dst.applied[k], dst, src)
                  && forall j :: 0 <= j < k ==> !PolicyAdmits(dst.applied[j], dst, src)
  {
    if !SamePod(dst, src) {
      var r := FirstAdmitting(dst.applied, 0, dst, src);
      if r.None? {
        forall p | p in dst.applied
          ensures !PolicyAdmits(p, dst, src)
        {
          var j :| 0 <= j < |dst.applied| && dst.applied[j] == p;
        }
      }
    }
  }

  /**
   * The per-peer body of the rule loop: every sub-test the peer carries is
   * and-ed into `peerAllowed`; a malformed CIDR fails the IP-block test.
   */
  method PeerAllowed(p: Pod, pod: Pod, peer: PolicyPeer) returns (peerAllowed: bool)
    ensures peerAllowed <==> PeerAdmits(peer, p, pod)
  {
    peerAllowed := true;
    if peer.ipBlock.Some? {
      var block := peer.ipBlock.value;
      var network := IPNet.ParseCIDR(block.cidr);
      if network.None? {
        peerAllowed := peerAllowed && false;
      }
      var podIP := IPNet.ParseIP(pod.pod.podIP);
      peerAllowed := peerAllowed && IPNet.Contains(network.value, podIP);
      var e := 0;
      while e < |block.except|
        invariant 0 <= e <= |block.except|
        invariant peerAllowed <==> network.Some? && IPNet.Contains(network.value, podIP)
                                   && pod.pod.podIP !in block.except[..e]
      {
        if pod.pod.podIP == block.except[e] {
          peerAllowed := peerAllowed && false;
        }
        e := e + 1;
      }
      assert block.except[..e] == block.except;
    }
    if peer.podSelector.Some? {
      var labelsMatch := LabelsMatch(peer.podSelector.value.matchLabels, pod.pod.labels);
      peerAllowed := peerAllowed && labelsMatch;
    }
    if peer.namespaceSelector.Some? {
      var namespaceMatch := LabelsMatch(peer.namespaceSelector.value.matchLabels, pod.namespace.labels);
      peerAllowed := peerAllowed && namespaceMatch;
    } else {
      peerAllowed := peerAllowed && p.pod.namespace == pod.pod.namespace;
    }
  }

  /**
   * `Pod.PodAllowedToConnect` with receiver `p` the destination and `pod` the
   * source: loops over policies, rules and peers, returns at the first
   * admitting peer or admit-all rule, accumulates each peer's sub-tests in
   * `peerAllowed`.
   */
  method PodAllowedToConnect(p: Pod, pod: Pod) returns (allowed: bool, policy: Option<NetworkPolicy>)
    ensures (allowed, policy) == Allowed(p, pod)
  {
    if p.pod.name == pod.pod.name && p.pod.namespace == pod.pod.namespace {
      return true, None;
    }
    var i := 0;
    while i < |p.applied|
      invariant 0 <= i <= |p.applied|
      invariant FirstAdmitting(p.applied, 0, p, pod) == FirstAdmitting(p.applied, i, p, pod)
    {
      var netpol := p.applied[i];
      var isIngress := Contains(netpol.policyTypes, Ingress);
      if isIngress {
        var j := 0;
        while j < |netpol.ingress|
          invariant 0 <= j <= |netpol.ingress|
          invariant forall m :: 0 <= m < j ==> !RuleAdmits(netpol.ingress[m], p, pod)
        {
          var rule := netpol.ingress[j];
          if |rule.ports| == 0 && |rule.from| == 0 {
            assert RuleAdmits(rule, p, pod);
            return true, Some(netpol);
          }
          var k := 0;
          while k < |rule.from|
            invariant 0 <= k <= |rule.from|
            invariant forall m :: 0 <= m < k ==> !PeerAdmits(rule.from[m], p, pod)
          {
            var peer := rule.from[k];
            var peerAllowed := PeerAllowed(p, pod, peer);
            if peerAllowed {
              assert RuleAdmits(rule, p, pod);
              assert PolicyAdmits(netpol, p, pod);
              return true, Some(netpol);
            }
            k := k + 1;
          }
          assert !RuleAdmits(rule, p, pod);
          j := j + 1;
        }
      }
      assert !PolicyAdmits(netpol, p, pod);
      i := i + 1;
    }
    return false, None;
  }

  /**
   * Policies without the Ingress type are skipped: inserting one anywhere in
   * the destination's applied list changes neither the verdict nor the policy.
   */
  lemma NonIngressPolicyIgnored(dst: Pod, src: Pod, q: NetworkPolicy, at: nat)
    requires Ingress !in q.policyTypes && at <= |dst.applied|
    ensures Allowed(dst.(applied := dst.applied[..at] + [q] + dst.applied[at..]), src) == Allowed(dst, src)
  {
    var dst' := dst.(applied := dst.applied[..at] + [q] + dst.applied[at..]);
    var s, s' := dst.applied, dst'.applied;
    assert |s'| == |s| + 1;
    assert forall j :: 0 <= j < at ==> s'[j] == s[j];
    assert s'[at] == q;
    assert forall j :: at < j < |s'| ==> s'[j] == s[j - 1];
    // Only namespaces and labels of dst are read by PolicyAdmits, and those agree.
    assert forall x :: PolicyAdmits(x, dst', src) == PolicyAdmits(x, dst, src);
    if !SamePod(dst, src) {
      match FirstAdmitting(s, 0, dst, src)
      case None =>
        assert FirstAdmitting(s', 0, dst', src).None?;
      case Some(k) =>
        var k' := if k < at then k else k + 1;
        assert s'[k'] == s[k];
        match FirstAdmitting(s', 0, dst', src)
        case None =>
          assert false;
        case Some(y) =>
          assert y == k';
    }
  }

  /** A rule with neither ports nor peers makes the destination reachable from every source. */
  lemma AdmitAllRuleAdmitsEverySource(dst: Pod, src: Pod, policy: NetworkPolicy, rule: IngressRule)
    requires policy in dst.applied && Ingress in policy.policyTypes
    requires rule in policy.ingress && AdmitsAll(rule)
    ensures Allowed(dst, src).0
  {
    assert PolicyAdmits(policy, dst, src);
    AllowedSpec(dst, src);
  }

  /** A rule with ports but no peers admits nobody. */
  lemma PortsOnlyRuleAdmitsNobody(rule: IngressRule, dst: Pod, src: Pod)
    requires rule.from == [] && rule.ports != []
    ensures !RuleAdmits(rule, dst, src)
  {
  }

  /** Code as written: a destination without applied policies is unreachable from every other pod. */
  lemma UnmanagedDestinationUnreachable(dst: Pod, src: Pod)
    requires dst.applied == [] && !SamePod(dst, src)
    ensures Allowed(dst, src) == (false, None)
  {
    AllowedSpec(dst, src);
  }

  /** An unparseable CIDR fails the IP-block sub-test whatever the source address. */
  lemma MalformedCIDRRejects(block: IPBlock, sourceIP: string)
    requires IPNet.ParseCIDR(block.cidr).None?
    ensures !IPBlockAdmits(block, sourceIP)
  {
  }

  /** An excepted address is rejected even when it lies inside the CIDR. */
  lemma ExceptedAddressRejected(block: IPBlock, sourceIP: string)
    requires sourceIP in block.except
    ensures !IPBlockAdmits(block, sourceIP)
  {
  }

  /**
   * A peer without a namespace selector, an IP-block-only or empty peer
   * included, admits only sources in the destination's namespace.
   */
  lemma NoNamespaceSelectorMeansSameNamespace(peer: PolicyPeer, dst: Pod, src: Pod)
    requires peer.namespaceSelector.None? && PeerAdmits(peer, dst, src)
    ensures src.pod.namespace == dst.pod.namespace
  {
  }

  /** The pods and policy of the frontend scenario below. */
  const FrontendPeer := PolicyPeer(Some(LabelSelector(map["role" := "frontend"])), None, None)
  const FrontendPolicy := NetworkPolicy("uid-1", "allow-frontend", "ns1", LabelSelector(map[]), [Ingress],
                                        [IngressRule([], [FrontendPeer])])
  const ScenarioDestination := Pod(CorePod("d", "ns1", map[], "10.0.0.1", []), Namespace("ns1", map[]), [FrontendPolicy])
  const FrontendInNs1 := Pod(CorePod("s1", "ns1", map["role" := "frontend"], "10.0.0.2", []), Namespace("ns1", map[]), [])
  const FrontendInNs2 := Pod(CorePod("s2", "ns2", map["role" := "frontend"], "10.0.0.3", []), Namespace("ns2", map[]), [])
  const BackendInNs1 := Pod(CorePod("s3", "ns1", map["role" := "backend"], "10.0.0.4", []), Namespace("ns1", map[]), [])

  /**
   * Destination in ns1 with one policy whose one rule has one peer
   * `{podSelector: {role: frontend}}`: a frontend pod of ns1 may connect, a
   * frontend pod of ns2 (no namespace selector) and a backend pod of ns1 may not.
   */
  lemma FrontendScenario()
    ensures Allowed(ScenarioDestination, FrontendInNs1) == (true, Some(FrontendPolicy))
    ensures !Allowed(ScenarioDestination, FrontendInNs2).0
    ensures !Allowed(ScenarioDestination, BackendInNs1).0
  {
    var d, rule := ScenarioDestination, FrontendPolicy.ingress[0];
    assert PeerAdmits(FrontendPeer, d, FrontendInNs1);
    assert RuleAdmits(rule, d, FrontendInNs1);
    assert !SubMap(FrontendPeer.podSelector.value.matchLabels, BackendInNs1.pod.labels) by {
      assert BackendInNs1.pod.labels["role"] != "frontend";
    }
  }
}
