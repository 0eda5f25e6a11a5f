/**
 * What one successful refresh publishes, as functions of the prepared pod list:
 * pods grouped by namespace and the allowed-connection edges, one per ordered
 * (destination, source) pair that the evaluator admits, destination-major.
 */
module Graph {
  import opened Wrappers
  import opened Types
  import opened Helpers
  import opened Evaluator
  import opened PodList

  /** The namespace every refresh excludes from the policy and pod lists. */
  const KubeSystem := "kube-system"

  /** The "name.namespace" text the builder compares to skip a pod paired with itself. */
  function Key(pod: CorePod): string {
    pod.name + "." + pod.namespace
  }

  /** A pod's graph node: the UID of its first owner reference, else its bare name. */
  function NodeId(pod: CorePod): string {
    if |pod.ownerUIDs| > 0 then pod.ownerUIDs[0] else pod.name
  }

  /** The text after the last dot of `s` (all of `s` when it has no dot). */
  function AfterLastDot(s: string): string {
    if s == [] then []
    else if s[|s| - 1] == '.' then []
    else AfterLastDot(s[..|s| - 1]) + [s[|s| - 1]]
  }

  lemma {:induction false} AfterLastDotOfKey(name: string, ns: string)
    requires '.' !in ns
    ensures AfterLastDot(name + "." + ns) == ns
  {
    var s := name + "." + ns;
    if ns != [] {
      var init := ns[..|ns| - 1];
      assert s[..|s| - 1] == name + "." + init;
      assert s[|s| - 1] == ns[|ns| - 1];
      assert ns[|ns| - 1] in ns;
      AfterLastDotOfKey(name, init);
      assert ns == init + [ns[|ns| - 1]];
    }
  }

  /**
   * Differing keys mean differing (name, namespace); the converse holds when
   * namespaces contain no dot, as Kubernetes namespace names never do.
   */
  lemma KeyIdentifiesPod(a: CorePod, b: CorePod)
    requires '.' !in a.namespace && '.' !in b.namespace
    ensures Key(a) == Key(b) <==> a.name == b.name && a.namespace == b.namespace
  {
    if Key(a) == Key(b) {
      var k := Key(a);
      AfterLastDotOfKey(a.name, a.namespace);
      AfterLastDotOfKey(b.name, b.namespace);
      assert a.name == k[..|a.name|] == b.name;
    }
  }

  /** The edge the builder emits for destination `dst` and source `src`, if any. */
  function EdgeFor(dst: Pod, src: Pod): Option<Connection> {
    var (allowed, policy) := Allowed(dst, src);
    if allowed && Key(dst.pod) != Key(src.pod) then
      Some(Connection(NodeId(src.pod), NodeId(dst.pod), policy.value.uid))
    else None
  }

  /**
   * An edge is emitted exactly when the evaluator admits the pair and the keys
   * differ; its endpoints are the node ids of source and destination, and it
   * names an applied Ingress policy of the destination that admits the source.
   * Differing keys rule out the self case, so that policy is never absent.
   */
  lemma EdgeForSpec(dst: Pod, src: Pod)
    ensures EdgeFor(dst, src).Some? <==> Allowed(dst, src).0 && Key(dst.pod) != Key(src.pod)
    ensures EdgeFor(dst, src).Some? ==>
      EdgeFor(dst, src).value.fromUID == NodeId(src.pod) && EdgeFor(dst, src).value.toUID == NodeId(dst.pod)
    ensures EdgeFor(dst, src).Some? ==>
      exists p :: p in dst.applied && Ingress in p.policyTypes && PolicyAdmits(p, dst, src)
                  && EdgeFor(dst, src).value.networkPolicyUID == p.uid
  {
    AllowedSpec(dst, src);
    if EdgeFor(dst, src).Some? {
      var k :| 0 <= k < |dst.applied| && dst.applied[k] == Allowed(dst, src).1.value
                && PolicyAdmits(dst.applied[k], dst, src);
    }
  }

  function Emit(e: Option<Connection>): seq<Connection> {
    if e.Some? then [e.value] else []
  }

  /** The edges into `dst` from each source of `srcs`, in source order. */
  function EdgesTo(dst: Pod, srcs: seq<Pod>): seq<Connection> {
    if srcs == [] then []
    else EdgesTo(dst, srcs[..|srcs| - 1]) + Emit(EdgeFor(dst, srcs[|srcs| - 1]))
  }

  /** The edges into each destination of `dsts` from every pod of `all`, destination-major. */
  function Edges(dsts: seq<Pod>, all: seq<Pod>): seq<Connection> {
    if dsts == [] then []
    else Edges(dsts[..|dsts| - 1], all) + EdgesTo(dsts[|dsts| - 1], all)
  }

  /** The pods of namespace `ns`, in list order. */
  function InNamespace(pods: seq<Pod>, ns: string): seq<CorePod> {
    if pods == [] then []
    else
      var last := pods[|pods| - 1];
      InNamespace(pods[..|pods| - 1], ns) + (if last.pod.namespace == ns then [last.pod] else [])
  }

  /** A namespace's list holds exactly the pods of that namespace; it is empty when none is there. */
  lemma {:induction false} InNamespaceMembership(pods: seq<Pod>, ns: string)
    ensures forall x :: x in InNamespace(pods, ns) <==> x.namespace == ns && exists p :: p in pods && p.pod == x
    ensures (forall p :: p in pods ==> p.pod.namespace != ns) ==> InNamespace(pods, ns) == []
  {
    if pods != [] {
      var init, last := pods[..|pods| - 1], pods[|pods| - 1];
      assert pods == init + [last];
      InNamespaceMembership(init, ns);
    }
  }

  /** The `payload.Pods` map as the outer loop fills it. */
  function Group(pods: seq<Pod>): map<string, seq<CorePod>> {
    if pods == [] then map[]
    else
      var g, last := Group(pods[..|pods| - 1]), pods[|pods| - 1];
      var ns := last.pod.namespace;
      g[ns := (if ns in g then g[ns] else []) + [last.pod]]
  }

  /** One more destination: its pod joins the end of its namespace's group. */
  lemma GroupStep(pods: seq<Pod>, i: nat)
    requires i < |pods|
    ensures var groups, ns := Group(pods[..i]), pods[i].pod.namespace;
            Group(pods[..i + 1]) == groups[ns := (if ns in groups then groups[ns] else []) + [pods[i].pod]]
  {
    assert pods[..i + 1][..i] == pods[..i];
  }

  /** One more destination: its incoming edges follow those already published. */
  lemma EdgesStep(dsts: seq<Pod>, i: nat, all: seq<Pod>)
    requires i < |dsts|
    ensures Edges(dsts[..i + 1], all) == Edges(dsts[..i], all) + EdgesTo(dsts[i], all)
  {
    assert dsts[..i + 1][..i] == dsts[..i];
  }

  /** One more source: its edge, if any, follows those already emitted for the destination. */
  lemma EdgesToStep(dst: Pod, srcs: seq<Pod>, j: nat)
    requires j < |srcs|
    ensures EdgesTo(dst, srcs[..j + 1]) == EdgesTo(dst, srcs[..j]) + Emit(EdgeFor(dst, srcs[j]))
  {
    assert srcs[..j + 1][..j] == srcs[..j];
  }

  /** The payload one successful refresh publishes. */
  function BuildPayload(netpols: seq<NetworkPolicy>, pods: seq<Pod>): Payload {
    Payload(Group(pods), netpols, Edges(pods, pods))
  }

  /** A pod after both setters of the refresh: namespace record attached, governing policies appended. */
  function Prepare(pod: Pod, namespaces: map<string, Namespace>, netpols: seq<NetworkPolicy>): Pod {
    pod.(namespace := NamespaceOf(namespaces, pod.pod.namespace),
         applied := pod.applied + Governing(netpols, pod.pod))
  }

  function Prepared(pods: seq<Pod>, namespaces: map<string, Namespace>, netpols: seq<NetworkPolicy>): (r: seq<Pod>)
    ensures |r| == |pods|
  {
    seq(|pods|, i requires 0 <= i < |pods| => Prepare(pods[i], namespaces, netpols))
  }

  /**
   * `payload.Pods` maps exactly the namespaces that have pods, each to its
   * pods in list order.
   */
  lemma {:induction false} GroupByNamespace(pods: seq<Pod>)
    ensures forall ns :: ns in Group(pods) <==> exists p :: p in pods && p.pod.namespace == ns
    ensures forall ns :: ns in Group(pods) ==> Group(pods)[ns] == InNamespace(pods, ns)
  {
    if pods != [] {
      var init, last := pods[..|pods| - 1], pods[|pods| - 1];
      assert pods == init + [last];
      GroupByNamespace(init);
      forall ns
        ensures ns in Group(pods) <==> exists p :: p in pods && p.pod.namespace == ns
      {
        if ns != last.pod.namespace && ns in Group(pods) {
          assert ns in Group(init);
          var p :| p in init && p.pod.namespace == ns;
          assert p in pods;
        }
        if exists p :: p in pods && p.pod.namespace == ns {
          var p :| p in pods && p.pod.namespace == ns;
          if p != last {
            assert p in init;
          }
        }
      }
      forall ns | ns in Group(pods)
        ensures Group(pods)[ns] == InNamespace(pods, ns)
      {
        if ns == last.pod.namespace && ns !in Group(init) {
          InNamespaceMembership(init, ns);
          assert InNamespace(init, ns) == [];
        }
      }
    }
  }

  /** An edge into `dst` is present exactly when some source yields it. */
  lemma {:induction false} EdgesToMembership(dst: Pod, srcs: seq<Pod>, c: Connection)
    ensures c in EdgesTo(dst, srcs) <==> exists j :: 0 <= j < |srcs| && EdgeFor(dst, srcs[j]) == Some(c)
  {
    if srcs != [] {
      var init, last := srcs[..|srcs| - 1], srcs[|srcs| - 1];
      assert EdgesTo(dst, srcs) == EdgesTo(dst, init) + Emit(EdgeFor(dst, last));
      EdgesToMembership(dst, init, c);
      if c in EdgesTo(dst, srcs) {
        if c in EdgesTo(dst, init) {
          var j :| 0 <= j < |init| && EdgeFor(dst, init[j]) == Some(c);
          assert srcs[j] == init[j];
        } else {
          assert EdgeFor(dst, srcs[|srcs| - 1]) == Some(c);
        }
      } else {
        forall j | 0 <= j < |srcs|
          ensures EdgeFor(dst, srcs[j]) != Some(c)
        {
          if j < |init| {
            assert srcs[j] == init[j];
          }
        }
      }
    }
  }

  /** Every published edge is an edge into one of the destinations. */
  lemma {:induction false} EdgesMembership(dsts: seq<Pod>, all: seq<Pod>, c: Connection)
    ensures c in Edges(dsts, all) <==> exists i :: 0 <= i < |dsts| && c in EdgesTo(dsts[i], all)
  {
    if c in Edges(dsts, all) {
      EdgeHasDestination(dsts, all, c);
    }
    if exists i :: 0 <= i < |dsts| && c in EdgesTo(dsts[i], all) {
      var i :| 0 <= i < |dsts| && c in EdgesTo(dsts[i], all);
      DestinationEdgeIsPublished(dsts, all, i, c);
    }
  }

  lemma {:induction false} EdgeHasDestination(dsts: seq<Pod>, all: seq<Pod>, c: Connection)
    requires c in Edges(dsts, all)
    ensures exists i :: 0 <= i < |dsts| && c in EdgesTo(dsts[i], all)
  {
    var init, last := dsts[..|dsts| - 1], dsts[|dsts| - 1];
    assert Edges(dsts, all) == Edges(init, all) + EdgesTo(last, all);
    if c in Edges(init, all) {
      EdgeHasDestination(init, all, c);
      var i :| 0 <= i < |init| && c in EdgesTo(init[i], all);
      assert dsts[i] == init[i];
    } else {
      assert c in EdgesTo(dsts[|dsts| - 1], all);
    }
  }

  lemma {:induction false} DestinationEdgeIsPublished(dsts: seq<Pod>, all: seq<Pod>, i: nat, c: Connection)
    requires i < |dsts| && c in EdgesTo(dsts[i], all)
    ensures c in Edges(dsts, all)
  {
    var n := |dsts| - 1;
    EdgesStep(dsts, n, all);
    assert dsts[..n + 1] == dsts;
    if i < n {
      assert dsts[..n][i] == dsts[i];
      DestinationEdgeIsPublished(dsts[..n], all, i, c);
    }
  }

  /** Every published edge comes from an ordered (destination, source) pair the evaluator admits. */
  lemma EdgeFromAdmittedPair(dsts: seq<Pod>, all: seq<Pod>, c: Connection)
    requires c in Edges(dsts, all)
    ensures exists i, j :: 0 <= i < |dsts| && 0 <= j < |all| && EdgeFor(dsts[i], all[j]) == Some(c)
  {
    EdgesMembership(dsts, all, c);
    var i :| 0 <= i < |dsts| && c in EdgesTo(dsts[i], all);
    EdgesToMembership(dsts[i], all, c);
  }

  /** Every admitted pair with differing keys yields its edge in the published list. */
  lemma AdmittedPairHasEdge(dsts: seq<Pod>, all: seq<Pod>, i: nat, j: nat)
    requires i < |dsts| && j < |all| && EdgeFor(dsts[i], all[j]).Some?
    ensures EdgeFor(dsts[i], all[j]).value in Edges(dsts, all)
  {
    var c := EdgeFor(dsts[i], all[j]).value;
    EdgesToMembership(dsts[i], all, c);
    EdgesMembership(dsts, all, c);
  }

  /** Edges come destination-major: the edges of a concatenation are concatenated. */
  lemma {:induction false} EdgesAppend(a: seq<Pod>, b: seq<Pod>, all: seq<Pod>)
    ensures Edges(a + b, all) == Edges(a, all) + Edges(b, all)
  {
    if b != [] {
      assert (a + b)[..|a + b| - 1] == a + b[..|b| - 1];
      EdgesAppend(a, b[..|b| - 1], all);
    } else {
      assert a + b == a;
    }
  }

  /** The edge list is no longer than the number of ordered pairs. */
  lemma {:induction false} EdgeCountBound(dsts: seq<Pod>, all: seq<Pod>)
    ensures |Edges(dsts, all)| <= |dsts| * |all|
  {
    if dsts != [] {
      EdgeCountBound(dsts[..|dsts| - 1], all);
      EdgesToCountBound(dsts[|dsts| - 1], all);
      assert |dsts| * |all| == (|dsts| - 1) * |all| + |all|;
    }
  }

  lemma {:induction false} EdgesToCountBound(dst: Pod, srcs: seq<Pod>)
    ensures |EdgesTo(dst, srcs)| <= |srcs|
  {
    if srcs != [] {
      EdgesToCountBound(dst, srcs[..|srcs| - 1]);
    }
  }

  /** A pod paired with itself never yields an edge. */
  lemma NoSelfEdges(pod: Pod)
    ensures EdgeFor(pod, pod) == None
  {
    EdgeForSpec(pod, pod);
  }

  /**
   * End to end: on a prepared snapshot (kube-system pods dropped, namespace
   * records and governing policies attached) every edge points at a pod that
   * an Ingress policy of the kept policy list governs, and names that policy.
   */
  lemma EdgesAreGoverned(raw: seq<CorePod>, namespaces: map<string, Namespace>, netpols: seq<NetworkPolicy>, c: Connection)
    requires c in Edges(Prepared(KeptPods(raw, [KubeSystem]), namespaces, netpols),
                        Prepared(KeptPods(raw, [KubeSystem]), namespaces, netpols))
    ensures exists dst, p :: dst in raw && dst.namespace != KubeSystem && c.toUID == NodeId(dst)
                             && p in netpols && Governs(p, dst) && Ingress in p.policyTypes
                             && c.networkPolicyUID == p.uid
  {
    var kept := KeptPods(raw, [KubeSystem]);
    var pods := Prepared(kept, namespaces, netpols);
    EdgeFromAdmittedPair(pods, pods, c);
    var i, j :| 0 <= i < |pods| && 0 <= j < |pods| && EdgeFor(pods[i], pods[j]) == Some(c);
    KeptPodsMembership(raw, [KubeSystem]);
    assert kept[i] in kept;
    EdgeForSpec(pods[i], pods[j]);
    GoverningMembership(netpols, kept[i].pod);
    var p :| p in pods[i].applied && Ingress in p.policyTypes && c.networkPolicyUID == p.uid;
    assert pods[i].applied == Governing(netpols, kept[i].pod);
    assert pods[i].pod == kept[i].pod;
  }

  /**
   * A pod whose namespace has no record gets the zero record, so a namespace
   * selector with any required label never admits it.
   */
  lemma MissingNamespaceRecordFailsSelectors(
    pod: Pod, namespaces: map<string, Namespace>, netpols: seq<NetworkPolicy>, peer: PolicyPeer, dst: Pod)
    requires pod.pod.namespace !in namespaces
    requires peer.namespaceSelector.Some? && peer.namespaceSelector.value.matchLabels != map[]
    ensures !PeerAdmits(peer, dst, Prepare(pod, namespaces, netpols))
  {
    var required := peer.namespaceSelector.value.matchLabels;
    var key :| key in required;
    MissingKeyFails(required, map[], key);
  }
}
