/**
 * The recomputation controller: `Server.refresh` with its `alreadyRefreshing`
 * guard, the three cluster fetches (given as inputs that either carry the
 * listed objects or an error), the error paths, and the nested loops that
 * fill the published payload.
 */
module Server {
  import opened Wrappers
  import opened Types
  import opened Evaluator
  import opened PodList
  import opened Graph

  /** The outcome of one cluster list call. */
  datatype Fetch<T> = Fetched(items: T) | FetchFailed(error: string)

  /**
   * The pod list as `refresh` prepares it: `SetCorrespondingNamespaces`, then
   * `SetAppliedNetworkPolicies`, both in place on the listed pods.
   */
  method PreparePods(keptPods: seq<Pod>, namespaces: map<string, Namespace>, keptPolicies: seq<NetworkPolicy>)
    returns (prepared: seq<Pod>)
    ensures prepared == Prepared(keptPods, namespaces, keptPolicies)
  {
    var podArray := new Pod[|keptPods|](i requires 0 <= i < |keptPods| => keptPods[i]);
    SetCorrespondingNamespaces(podArray, namespaces);
    SetAppliedNetworkPolicies(podArray, keptPolicies);
    prepared := podArray[..];
  }

  class Server {
    var alreadyRefreshing: bool
    var netpols: Option<seq<NetworkPolicy>>
    var pods: Option<seq<Pod>>
    var payload: Payload

    /** The zero server: idle, nothing fetched, the empty payload published. */
    constructor ()
      ensures !alreadyRefreshing && netpols.None? && pods.None? && payload == EmptyPayload
    {
      alreadyRefreshing := false;
      netpols := None;
      pods := None;
      payload := EmptyPayload;
    }

    /**
     * `refresh`: a no-op while a refresh is marked in progress; otherwise
     * fetches, prepares and publishes a new payload. Whatever happens, the
     * server is idle again on return, and the payload is replaced only when
     * all three fetches succeed.
     */
    method Refresh(policyList: Fetch<seq<NetworkPolicy>>,
                   namespaceMap: Fetch<map<string, Namespace>>,
                   podList: Fetch<seq<CorePod>>)
      returns (err: Option<string>)
      modifies this
      ensures old(alreadyRefreshing) ==>
        err.None? && alreadyRefreshing && netpols == old(netpols) && pods == old(pods) && payload == old(payload)
      ensures !old(alreadyRefreshing) ==> !alreadyRefreshing
      ensures !old(alreadyRefreshing) && policyList.FetchFailed? ==>
        err == Some(policyList.error) && netpols.None? && pods.None? && payload == old(payload)
      ensures !old(alreadyRefreshing) && policyList.Fetched? && namespaceMap.FetchFailed? ==>
        && err == Some(namespaceMap.error) && pods.None? && payload == old(payload)
        && netpols == Some(KeptPolicies(policyList.items, [KubeSystem]))
      ensures !old(alreadyRefreshing) && policyList.Fetched? && namespaceMap.Fetched? && podList.FetchFailed? ==>
        && err == Some(podList.error) && pods.None? && payload == old(payload)
        && netpols == Some(KeptPolicies(policyList.items, [KubeSystem]))
      ensures !old(alreadyRefreshing) && policyList.Fetched? && namespaceMap.Fetched? && podList.Fetched? ==>
        var kept := KeptPolicies(policyList.items, [KubeSystem]);
        var prepared := Prepared(KeptPods(podList.items, [KubeSystem]), namespaceMap.items, kept);
        && err.None? && netpols == Some(kept) && pods == Some(prepared)
        && payload == BuildPayload(kept, prepared)
    {
      if alreadyRefreshing {
        return None;
      }
      netpols := None;
      pods := None;
      alreadyRefreshing := true;
      if policyList.FetchFailed? {
        netpols := None;
        alreadyRefreshing := false;
        return Some(policyList.error);
      }
      var keptPolicies := ExcludePolicies(policyList.items, [KubeSystem]);
      netpols := Some(keptPolicies);
      if namespaceMap.FetchFailed? {
        alreadyRefreshing := false;
        return Some(namespaceMap.error);
      }
      var namespaces := namespaceMap.items;
      if podList.FetchFailed? {
        pods := None;
        alreadyRefreshing := false;
        return Some(podList.error);
      }
      var keptPods := ExcludePods(podList.items, [KubeSystem]);
      var all := PreparePods(keptPods, namespaces, keptPolicies);
      pods := Some(all);
      Publish(keptPolicies, all);
      alreadyRefreshing := false;
      return None;
    }

    /**
     * The payload part of `refresh`: a fresh payload holding the policy list,
     * then, for every pod as destination, its entry in the namespace map and
     * its incoming edges.
     */
    method Publish(keptPolicies: seq<NetworkPolicy>, all: seq<Pod>)
      modifies this
      ensures payload == BuildPayload(keptPolicies, all)
      ensures alreadyRefreshing == old(alreadyRefreshing) && netpols == old(netpols) && pods == old(pods)
    {
      payload := Payload(map[], keptPolicies, []);
      var i := 0;
      while i < |all|
        invariant 0 <= i <= |all|
        invariant alreadyRefreshing == old(alreadyRefreshing) && netpols == old(netpols) && pods == old(pods)
        invariant payload.pods == Group(all[..i])
        invariant payload.networkPolicies == keptPolicies
        invariant payload.allowedConnections == Edges(all[..i], all)
      {
        var pod1 := all[i];
        GroupStep(all, i);
        EdgesStep(all, i, all);
        AddToGroup(pod1.pod);
        AppendEdgesTo(pod1, all);
        i := i + 1;
      }
      assert all[..i] == all;
    }

    /** The pod joins the end of its namespace's list, which is created empty when missing. */
    method AddToGroup(pod: CorePod)
      modifies this
      ensures var ns := pod.namespace;
              payload.pods == old(payload.pods)[ns := (if ns in old(payload.pods) then old(payload.pods)[ns] else []) + [pod]]
      ensures payload.networkPolicies == old(payload.networkPolicies)
      ensures payload.allowedConnections == old(payload.allowedConnections)
      ensures alreadyRefreshing == old(alreadyRefreshing) && netpols == old(netpols) && pods == old(pods)
    {
      var ns := pod.namespace;
      if ns !in payload.pods {
        payload := payload.(pods := payload.pods[ns := []]);
      }
      payload := payload.(pods := payload.pods[ns := payload.pods[ns] + [pod]]);
    }

    /**
     * The inner loop of `refresh` for destination `pod1`: one edge per source
     * the evaluator admits whose "name.namespace" key differs, in source order,
     * with the owner-or-name node ids and the UID of the admitting policy.
     */
    method AppendEdgesTo(pod1: Pod, all: seq<Pod>)
      modifies this
      ensures payload.pods == old(payload.pods) && payload.networkPolicies == old(payload.networkPolicies)
      ensures payload.allowedConnections == old(payload.allowedConnections) + EdgesTo(pod1, all)
      ensures alreadyRefreshing == old(alreadyRefreshing) && netpols == old(netpols) && pods == old(pods)
    {
      ghost var start := payload.allowedConnections;
      var j := 0;
      while j < |all|
        invariant 0 <= j <= |all|
        invariant alreadyRefreshing == old(alreadyRefreshing) && netpols == old(netpols) && pods == old(pods)
        invariant payload.pods == old(payload.pods) && payload.networkPolicies == old(payload.networkPolicies)
        invariant payload.allowedConnections == start + EdgesTo(pod1, all[..j])
      {
        var pod2 := all[j];
        var connectionAllowed, netpolPtr := PodAllowedToConnect(pod1, pod2);
        ghost var edges := EdgesTo(pod1, all[..j]);
        EdgesToStep(pod1, all, j);
        if connectionAllowed && Key(pod1.pod) != Key(pod2.pod) {
          var from, to := pod2.pod.name, pod1.pod.name;
          if |pod2.pod.ownerUIDs| > 0 {
            from := pod2.pod.ownerUIDs[0];
          }
          if |pod1.pod.ownerUIDs| > 0 {
            to := pod1.pod.ownerUIDs[0];
          }
          var edge := Connection(from, to, netpolPtr.value.uid);
          assert EdgeFor(pod1, pod2) == Some(edge);
          payload := payload.(allowedConnections := payload.allowedConnections + [edge]);
          assert start + edges + [edge] == start + (edges + [edge]);
        } else {
          assert Emit(EdgeFor(pod1, pod2)) == [];
        }
        j := j + 1;
      }
      assert all[..j] == all;
    }
  }
}
