/**
 * Snapshot preparation: the exclusion filters that build the policy and pod
 * lists, and the two `PodList` setters that update the pod list in place.
 */
module PodList {
  import opened Types
  import opened Helpers

  /** The policy governs the pod: same namespace, and its pod selector matches the pod's labels. */
  predicate Governs(policy: NetworkPolicy, pod: CorePod) {
    policy.namespace == pod.namespace && SubMap(policy.podSelector.matchLabels, pod.labels)
  }

  /** The policies of `netpols` that govern `pod`, in list order. */
  function Governing(netpols: seq<NetworkPolicy>, pod: CorePod): seq<NetworkPolicy> {
    if netpols == [] then []
    else
      var last := netpols[|netpols| - 1];
      Governing(netpols[..|netpols| - 1], pod) + (if Governs(last, pod) then [last] else [])
  }

  /** Exactly the governing policies of the list are selected, each at most once per listing. */
  lemma {:induction false} GoverningMembership(netpols: seq<NetworkPolicy>, pod: CorePod)
    ensures |Governing(netpols, pod)| <= |netpols|
    ensures forall x :: x in Governing(netpols, pod) <==> x in netpols && Governs(x, pod)
  {
    if netpols != [] {
      var init, last := netpols[..|netpols| - 1], netpols[|netpols| - 1];
      assert netpols == init + [last];
      GoverningMembership(init, pod);
    }
  }

  /** One more policy in the list: it is selected after the others exactly when it governs the pod. */
  lemma GoverningStep(netpols: seq<NetworkPolicy>, j: nat, pod: CorePod)
    requires j < |netpols|
    ensures Governing(netpols[..j + 1], pod)
         == Governing(netpols[..j], pod) + (if Governs(netpols[j], pod) then [netpols[j]] else [])
  {
    assert netpols[..j + 1][..j] == netpols[..j];
  }

  /** Governing distributes over concatenation: list order is kept. */
  lemma {:induction false} GoverningAppend(a: seq<NetworkPolicy>, b: seq<NetworkPolicy>, pod: CorePod)
    ensures Governing(a + b, pod) == Governing(a, pod) + Governing(b, pod)
  {
    if b != [] {
      var last := b[|b| - 1];
      assert (a + b)[..|a + b| - 1] == a + b[..|b| - 1];
      GoverningAppend(a, b[..|b| - 1], pod);
    } else {
      assert a + b == a;
    }
  }

  /** The namespace record a Go map lookup yields: the zero record for a missing key. */
  function NamespaceOf(namespaces: map<string, Namespace>, name: string): (r: Namespace)
    ensures name !in namespaces ==> r.labels == map[]
    ensures name in namespaces ==> r == namespaces[name]
  {
    if name in namespaces then namespaces[name] else ZeroNamespace
  }

  /**
   * `PodList.SetAppliedNetworkPolicies`: appends to each pod, in policy-list
   * order, the policies that govern it. Nothing else of any pod changes, and
   * a second call appends the same policies again.
   */
  method SetAppliedNetworkPolicies(pods: array<Pod>, netpols: seq<NetworkPolicy>)
    modifies pods
    ensures forall i :: 0 <= i < pods.Length ==>
      pods[i] == old(pods[i]).(applied := old(pods[i]).applied + Governing(netpols, old(pods[i]).pod))
  {
    for index := 0 to pods.Length
      invariant forall i :: 0 <= i < index ==>
        pods[i] == old(pods[i]).(applied := old(pods[i]).applied + Governing(netpols, old(pods[i]).pod))
      invariant forall i :: index <= i < pods.Length ==> pods[i] == old(pods[i])
    {
      AppendGoverning(pods, index, netpols);
    }
  }

  /** The inner loop of the setter: the policies governing one pod, appended in list order. */
  method AppendGoverning(pods: array<Pod>, index: nat, netpols: seq<NetworkPolicy>)
    requires index < pods.Length
    modifies pods
    ensures pods[index] == old(pods[index]).(applied := old(pods[index]).applied + Governing(netpols, old(pods[index]).pod))
    ensures forall i :: 0 <= i < pods.Length && i != index ==> pods[i] == old(pods[i])
  {
    var pod := pods[index];
    for j := 0 to |netpols|
      invariant pods[index].pod == pod.pod && pods[index].namespace == pod.namespace
      invariant pods[index].applied == pod.applied + Governing(netpols[..j], pod.pod)
      invariant forall i :: 0 <= i < pods.Length && i != index ==> pods[i] == old(pods[i])
    {
      var netpol := netpols[j];
      GoverningStep(netpols, j, pod.pod);
      if netpol.namespace == pod.pod.namespace {
        var selected := LabelsMatch(netpol.podSelector.matchLabels, pod.pod.labels);
        if selected {
          pods[index] := pods[index].(applied := pods[index].applied + [netpol]);
          assert pod.applied + Governing(netpols[..j], pod.pod) + [netpol]
              == pod.applied + (Governing(netpols[..j], pod.pod) + [netpol]);
        }
      }
    }
    assert netpols[..|netpols|] == netpols;
  }

  /**
   * `PodList.SetCorrespondingNamespaces`: attaches to each pod the record of
   * its namespace, the zero record (no labels) when the namespace is missing.
   */
  method SetCorrespondingNamespaces(pods: array<Pod>, namespaces: map<string, Namespace>)
    modifies pods
    ensures forall i :: 0 <= i < pods.Length ==>
      pods[i] == old(pods[i]).(namespace := NamespaceOf(namespaces, old(pods[i]).pod.namespace))
  {
    for index := 0 to pods.Length
      invariant forall i :: 0 <= i < index ==>
        pods[i] == old(pods[i]).(namespace := NamespaceOf(namespaces, old(pods[i]).pod.namespace))
      invariant forall i :: index <= i < pods.Length ==> pods[i] == old(pods[i])
    {
      pods[index] := pods[index].(namespace := NamespaceOf(namespaces, pods[index].pod.namespace));
    }
  }

  /** The inner search of both exclusion filters: stops at the first equal namespace. */
  method Excluded(namespace: string, excluded: seq<string>) returns (exclude: bool)
    ensures exclude <==> namespace in excluded
  {
    exclude := false;
    var i := 0;
    while i < |excluded|
      invariant 0 <= i <= |excluded|
      invariant namespace !in excluded[..i]
    {
      if namespace == excluded[i] {
        exclude := true;
        break;
      }
      i := i + 1;
    }
  }

  /** The policies outside the excluded namespaces, in list order. */
  function KeptPolicies(netpols: seq<NetworkPolicy>, excluded: seq<string>): seq<NetworkPolicy> {
    if netpols == [] then []
    else
      var last := netpols[|netpols| - 1];
      KeptPolicies(netpols[..|netpols| - 1], excluded) + (if last.namespace in excluded then [] else [last])
  }

  /** The policy filter keeps exactly the policies outside the excluded namespaces. */
  lemma {:induction false} KeptPoliciesMembership(netpols: seq<NetworkPolicy>, excluded: seq<string>)
    ensures |KeptPolicies(netpols, excluded)| <= |netpols|
    ensures forall x :: x in KeptPolicies(netpols, excluded) <==> x in netpols && x.namespace !in excluded
  {
    if netpols != [] {
      var init, last := netpols[..|netpols| - 1], netpols[|netpols| - 1];
      assert netpols == init + [last];
      KeptPoliciesMembership(init, excluded);
    }
  }

  /** A listed pod as `GetPodsExcludeNS` wraps it: zero namespace record, no applied policies. */
  function Wrap(pod: CorePod): Pod {
    Pod(pod, ZeroNamespace, [])
  }

  /** The pods outside the excluded namespaces, wrapped, in list order. */
  function KeptPods(pods: seq<CorePod>, excluded: seq<string>): seq<Pod> {
    if pods == [] then []
    else
      var last := pods[|pods| - 1];
      KeptPods(pods[..|pods| - 1], excluded) + (if last.namespace in excluded then [] else [Wrap(last)])
  }

  /**
   * The pod filter keeps exactly the pods outside the excluded namespaces,
   * each wrapped with the zero namespace record and no applied policies.
   */
  lemma {:induction false} KeptPodsMembership(pods: seq<CorePod>, excluded: seq<string>)
    ensures |KeptPods(pods, excluded)| <= |pods|
    ensures forall x :: x in KeptPods(pods, excluded) <==>
      x.pod in pods && x.pod.namespace !in excluded && x == Wrap(x.pod)
  {
    if pods != [] {
      var init, last := pods[..|pods| - 1], pods[|pods| - 1];
      assert pods == init + [last];
      KeptPodsMembership(init, excluded);
    }
  }

  /** The filter loop of `GetNetworkPoliciesExcludeNS`, on the already listed policies. */
  method ExcludePolicies(netpols: seq<NetworkPolicy>, excluded: seq<string>) returns (kept: seq<NetworkPolicy>)
    ensures kept == KeptPolicies(netpols, excluded)
  {
    kept := [];
    for i := 0 to |netpols|
      invariant kept == KeptPolicies(netpols[..i], excluded)
    {
      assert netpols[..i + 1] == netpols[..i] + [netpols[i]];
      var exclude := Excluded(netpols[i].namespace, excluded);
      if !exclude {
        kept := kept + [netpols[i]];
      }
    }
    assert netpols[..|netpols|] == netpols;
  }

  /** The filter loop of `GetPodsExcludeNS`, on the already listed pods. */
  method ExcludePods(pods: seq<CorePod>, excluded: seq<string>) returns (kept: seq<Pod>)
    ensures kept == KeptPods(pods, excluded)
  {
    kept := [];
    for i := 0 to |pods|
      invariant kept == KeptPods(pods[..i], excluded)
    {
      assert pods[..i + 1] == pods[..i] + [pods[i]];
      var exclude := Excluded(pods[i].namespace, excluded);
      if !exclude {
        kept := kept + [Pod(pods[i], ZeroNamespace, [])];
      }
    }
    assert pods[..|pods|] == pods;
  }

  /** The policy filter keeps list order: it distributes over concatenation. */
  lemma {:induction false} KeptPoliciesAppend(a: seq<NetworkPolicy>, b: seq<NetworkPolicy>, excluded: seq<string>)
    ensures KeptPolicies(a + b, excluded) == KeptPolicies(a, excluded) + KeptPolicies(b, excluded)
  {
    if b != [] {
      assert (a + b)[..|a + b| - 1] == a + b[..|b| - 1];
      KeptPoliciesAppend(a, b[..|b| - 1], excluded);
    } else {
      assert a + b == a;
    }
  }

  /** The pod filter keeps list order: it distributes over concatenation. */
  lemma {:induction false} KeptPodsAppend(a: seq<CorePod>, b: seq<CorePod>, excluded: seq<string>)
    ensures KeptPods(a + b, excluded) == KeptPods(a, excluded) + KeptPods(b, excluded)
  {
    if b != [] {
      assert (a + b)[..|a + b| - 1] == a + b[..|b| - 1];
      KeptPodsAppend(a, b[..|b| - 1], excluded);
    } else {
      assert a + b == a;
    }
  }

  /** With no item in an excluded namespace, the policy filter returns its input. */
  lemma {:induction false} NothingExcludedKeepsAll(netpols: seq<NetworkPolicy>, excluded: seq<string>)
    requires forall x :: x in netpols ==> x.namespace !in excluded
    ensures KeptPolicies(netpols, excluded) == netpols
  {
    if netpols != [] {
      var init, last := netpols[..|netpols| - 1], netpols[|netpols| - 1];
      assert netpols == init + [last];
      assert last in netpols;
      NothingExcludedKeepsAll(init, excluded);
      assert KeptPolicies(netpols, excluded) == KeptPolicies(init, excluded) + [last];
    }
  }
}
