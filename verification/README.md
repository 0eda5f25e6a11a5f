# netpolviz reachability core in Dafny

netpolviz reads the NetworkPolicies, Namespaces and Pods of a Kubernetes
cluster and publishes a graph: for every ordered pair of pods, an edge when the
ingress policies applied to the destination let the source connect, labelled
with the policy that allowed it. This project models the analysing core of that
program and proves what it computes:

- `helpers.dfy` — the label matcher `LabelsMatch`, a loop over the needed keys
  proved equal to the sub-map predicate `SubMap`.
- `ipnet.dfy` — an IPv4 model of `net.ParseCIDR`, `net.ParseIP` and
  `IPNet.Contains` (prefix match in the sense of section 3.1 of RFC 4632).
- `types.dfy` — the shapes of pods, namespaces, network policies, rules,
  peers, connections and the payload.
- `evaluator.dfy` — `contains` and `Pod.PodAllowedToConnect` as imperative
  nested loops with early returns, proved equal to the specification function
  `Allowed` (the first admitting policy in applied order).
- `podlist.dfy` — the two in-place `PodList` setters on an array of pods and
  the namespace-exclusion filter loops of `GetNetworkPoliciesExcludeNS` and
  `GetPodsExcludeNS`, each proved against a specification function.
- `multiplicity.dfy` — how many copies of each connection are published:
  one per ordered pair that yields it.
- `graph.dfy` — what one refresh publishes, as functions of the prepared pod
  list (`Group`, `Edges`, `EdgeFor`), and the lemmas about it.
- `server.dfy` — the `Server` class with its `alreadyRefreshing`, `netpols`,
  `pods` and `payload` fields, and `refresh` with its guard, its three error
  paths and its payload-building loops.

The model follows the code as written where it departs from Kubernetes
semantics:

- In Kubernetes, a pod that no ingress policy selects accepts every source.
  This code returns (false, nil) for it (internal/netpols/k8s.go:77-78), and
  the model follows the code (`Evaluator.UnmanagedDestinationUnreachable`).
- In Kubernetes, an ipBlock-only peer is not limited to the policy's
  namespace. Here every peer without a namespace selector is, IP-block-only
  and empty peers included (internal/netpols/k8s.go:67-69,
  `Evaluator.NoNamespaceSelectorMeansSameNamespace`).

Kubernetes conventions used: `rule.Size() == 0` holds exactly when the rule
has neither ports nor peers; a Go map lookup of a missing namespace yields
the zero `Namespace` record, whose labels are empty.

## Model

| member | source | states |
|---|---|---|
| Helpers.LabelsMatch | internal/netpols/helpers.go:53-65 | the result is true exactly when every needed key is present in the given labels with an equal value, whatever order the needed keys are visited in |
| Helpers.EmptySelectorMatchesAll | internal/netpols/helpers.go:53-55 | an empty requirement matches every label map, the empty one included |
| Helpers.MissingKeyFails | internal/netpols/helpers.go:60-61 | a needed key absent from the given labels forces a non-match |
| Helpers.DifferentValueFails | internal/netpols/helpers.go:56-58 | a needed key present with another value forces a non-match |
| Helpers.ExtraLabelsIgnored | internal/netpols/helpers.go:55-63 | adding labels under new keys never turns a match into a non-match |
| IPNet.ParseOctet | internal/netpols/k8s.go:51 | an accepted dotted-quad field is below 256 |
| IPNet.ParseIP | internal/netpols/k8s.go:51 | a parsed IPv4 address lies in the 32-bit address space |
| IPNet.SlashIndex | internal/netpols/k8s.go:47 | the index found is that of the first `/`; none is found only when there is no `/` |
| IPNet.ParseCIDR | internal/netpols/k8s.go:47-50 | a CIDR parses only when it has a slash and the text before it is an IPv4 address |
| IPNet.ParsedNetworkContainsItsAddress | internal/netpols/k8s.go:47-52 | a parsed network has its host bits cleared and contains the address written in the CIDR |
| IPNet.HostNetworkContainsOnlyItsBase | internal/netpols/k8s.go:52 | a /32 network contains exactly its own address |
| Evaluator.Contains | internal/netpols/k8s.go:16-23 | the result is true exactly when the policy type occurs in the list |
| Evaluator.FirstAdmitting | internal/netpols/k8s.go:31-34 | the index returned is that of the first admitting policy at or after the start; none means no policy from there on admits the source |
| Evaluator.AllowedSpec | internal/netpols/k8s.go:26-79 | the self case yields (true, no policy); otherwise a policy is returned exactly when the connection is allowed, exactly when some applied policy admits the source, and it is the first admitting one, an applied Ingress-typed policy |
| Evaluator.PeerAllowed | internal/netpols/k8s.go:45-69 | the accumulated flag is true exactly when every sub-test of the peer passes: IP block (parsed CIDR, address inside, not excepted), pod selector, namespace selector or else same namespace |
| Evaluator.PodAllowedToConnect | internal/netpols/k8s.go:26-79 | the nested loops with early returns return exactly the verdict and policy of the first-match specification |
| Evaluator.NonIngressPolicyIgnored | internal/netpols/k8s.go:31-34 | inserting a policy without the Ingress type anywhere in the applied list changes neither verdict nor policy |
| Evaluator.AdmitAllRuleAdmitsEverySource | internal/netpols/k8s.go:39-43 | an applied Ingress policy with a rule of neither ports nor peers admits every source |
| Evaluator.PortsOnlyRuleAdmitsNobody | internal/netpols/k8s.go:40-44 | a rule with ports but no peers admits no source |
| Evaluator.UnmanagedDestinationUnreachable | internal/netpols/k8s.go:77-78 | a destination with no applied policies rejects every other pod, with no policy |
| Evaluator.MalformedCIDRRejects | internal/netpols/k8s.go:47-52 | an unparseable CIDR fails the IP-block sub-test for every source address |
| Evaluator.ExceptedAddressRejected | internal/netpols/k8s.go:53-57 | a source address listed in the exceptions fails the IP-block sub-test |
| Evaluator.NoNamespaceSelectorMeansSameNamespace | internal/netpols/k8s.go:64-69 | a peer without a namespace selector admits only sources in the destination's namespace |
| Evaluator.FrontendScenario | internal/netpols/k8s.go:60-72 | a pod-selector peer admits a matching pod of the same namespace, and neither a matching pod of another namespace nor a non-matching pod |
| PodList.GoverningMembership | internal/netpols/k8s.go:87-91 | exactly the listed policies of the pod's namespace whose pod selector matches the pod are selected |
| PodList.GoverningStep | internal/netpols/k8s.go:87-91 | loop helper: one more policy in the list is appended after the others exactly when it governs the pod |
| PodList.GoverningAppend | internal/netpols/k8s.go:87-91 | selection keeps policy-list order |
| PodList.NamespaceOf | internal/netpols/k8s.go:100 | a missing namespace yields a record with no labels; a present one yields its record |
| PodList.SetAppliedNetworkPolicies | internal/netpols/k8s.go:85-95 | each pod gets the policies that govern it appended, in list order, and nothing else of any pod changes |
| PodList.AppendGoverning | internal/netpols/k8s.go:87-93 | one pod gets its governing policies appended in list order, every other pod is unchanged |
| PodList.SetCorrespondingNamespaces | internal/netpols/k8s.go:98-102 | each pod gets its namespace's record, the zero record when missing, and nothing else of any pod changes |
| PodList.Excluded | internal/netpols/k8s.go:145-151 | the search answers exactly whether the namespace is in the excluded list |
| PodList.KeptPoliciesMembership | internal/netpols/k8s.go:144-155 | the policy filter keeps exactly the policies outside the excluded namespaces |
| PodList.KeptPodsMembership | internal/netpols/k8s.go:168-182 | the pod filter keeps exactly the pods outside the excluded namespaces, each wrapped with no applied policies and the zero namespace record |
| PodList.ExcludePolicies | internal/netpols/k8s.go:144-156 | the filter loop returns the kept policies in list order |
| PodList.ExcludePods | internal/netpols/k8s.go:168-183 | the filter loop returns the kept, wrapped pods in list order |
| PodList.KeptPoliciesAppend | internal/netpols/k8s.go:144-155 | the policy filter keeps input order |
| PodList.KeptPodsAppend | internal/netpols/k8s.go:168-182 | the pod filter keeps input order |
| PodList.NothingExcludedKeepsAll | internal/netpols/k8s.go:144-155 | with nothing in an excluded namespace the filter returns its input |
| Graph.AfterLastDotOfKey | internal/netpols/netpols.go:91 | proof helper for `KeyIdentifiesPod`: the text after the last dot of a "name.namespace" key is the namespace when it has no dot |
| Graph.KeyIdentifiesPod | internal/netpols/netpols.go:91 | equal keys mean equal name and namespace, and conversely, for dot-free namespaces |
| Graph.EdgeForSpec | internal/netpols/netpols.go:90-104 | an edge is emitted exactly when the pair is allowed and the keys differ; its endpoints are the owner-or-name ids of source and destination and it names an applied Ingress policy of the destination that admits the source |
| Graph.InNamespaceMembership | internal/netpols/netpols.go:84-88 | a namespace's list holds exactly the pods of that namespace, and is empty when there are none |
| Graph.GroupStep | internal/netpols/netpols.go:85-88 | loop helper: one more destination joins the end of its namespace's list, which is created when missing |
| Graph.EdgesStep | internal/netpols/netpols.go:84-107 | loop helper: one more destination's incoming edges follow those already published |
| Graph.EdgesToStep | internal/netpols/netpols.go:89-106 | loop helper: one more source's edge, if any, follows those already emitted |
| Graph.Prepared | internal/netpols/netpols.go:70-71 | preparation keeps the number of pods |
| Graph.GroupByNamespace | internal/netpols/netpols.go:84-88 | the pod map has exactly the namespaces that have pods, each mapped to its pods in list order |
| Graph.EdgesToMembership | internal/netpols/netpols.go:89-106 | an edge into a destination is published exactly when some source yields it |
| Graph.EdgesMembership | internal/netpols/netpols.go:84-107 | an edge is published exactly when it is an edge into one of the destinations |
| Graph.EdgeHasDestination | internal/netpols/netpols.go:84-107 | every published edge is an edge into some destination |
| Graph.DestinationEdgeIsPublished | internal/netpols/netpols.go:84-107 | every edge into a destination is published |
| Graph.EdgeFromAdmittedPair | internal/netpols/netpols.go:84-107 | every published edge comes from an ordered (destination, source) pair that yields it |
| Graph.AdmittedPairHasEdge | internal/netpols/netpols.go:84-107 | every pair that yields an edge has that edge published |
| Graph.EdgesAppend | internal/netpols/netpols.go:84-107 | edges come in destination-major order |
| Graph.EdgeCountBound | internal/netpols/netpols.go:84-107 | the published list has at most as many edges as there are ordered (destination, source) pairs |
| Graph.EdgesToCountBound | internal/netpols/netpols.go:89-106 | a destination gets at most as many incoming edges as there are sources |
| Multiplicity.EmittedMultiplicity | internal/netpols/netpols.go:89-106 | appending one edge per admitting result publishes each connection once per result that yields it |
| Multiplicity.EdgesToAsEmitted | internal/netpols/netpols.go:89-106 | the inner loop's edges are exactly those of the per-source results, in source order |
| Multiplicity.EdgesToMultiplicity | internal/netpols/netpols.go:89-106 | into one destination, each connection is published exactly once per source that yields it |
| Multiplicity.EdgesMultiplicity | internal/netpols/netpols.go:84-107 | each connection is published exactly once per ordered (destination, source) pair that yields it, so one edge per admitted pair with differing keys |
| Multiplicity.TaggedSize | internal/netpols/netpols.go:84-107 | proof helper: pairing a set of source indices with one destination index keeps its size |
| Multiplicity.PairsSplit | internal/netpols/netpols.go:84-107 | proof helper: the yielding pairs split into those of the earlier destinations and those of the last |
| Multiplicity.EmittedStep | internal/netpols/netpols.go:100-104 | proof helper for `EmittedMultiplicity`: the last result adds one copy of its connection |
| Multiplicity.YieldingStep | internal/netpols/netpols.go:89-106 | proof helper for `EmittedMultiplicity`: the last position joins the yielding positions when its result is the connection |
| Graph.NoSelfEdges | internal/netpols/netpols.go:91 | a pod paired with itself yields no edge |
| Graph.EdgesAreGoverned | internal/netpols/netpols.go:63-107 | every edge of a successful refresh points at a pod outside kube-system governed by a listed Ingress policy, and names that policy |
| Graph.MissingNamespaceRecordFailsSelectors | internal/netpols/k8s.go:98-102 | a pod whose namespace has no record fails every namespace selector that requires a label |
| Server.PreparePods | internal/netpols/netpols.go:70-71 | the two setters in sequence yield the prepared pod list |
| Server.Server.constructor | internal/netpols/types.go:25-32 | a new server is idle, holds no lists and publishes the empty payload |
| Server.Server.Refresh | internal/netpols/netpols.go:19-111 | while a refresh is in progress nothing changes; otherwise the server is idle on return, each failed fetch returns its error with the payload untouched and the lists as the code leaves them, and success publishes the payload built from the kept policies and the prepared pods |
| Server.Server.Publish | internal/netpols/netpols.go:78-107 | the payload becomes the kept policies, the namespace map and the edges of the prepared pods; no other field changes |
| Server.Server.AddToGroup | internal/netpols/netpols.go:85-88 | the pod joins the end of its namespace's list, created when missing; nothing else changes |
| Server.Server.AppendEdgesTo | internal/netpols/netpols.go:89-106 | the edges into one destination are appended in source order; nothing else changes |

## Left out

- Cluster I/O: `BuildK8SContext`, `GetNamespaces` and the client `List` calls. The three fetches are inputs of `Refresh` that either carry the listed objects or an error; `GetNamespaces` is not part of this model, its name-to-record map is passed in.
- `watch` and the goroutines it starts: concurrency. The unsynchronised check-then-set on `alreadyRefreshing` is a race a sequential model cannot express; only the single-threaded guard is modelled.
- `handler`, `NewServer`, JSON marshalling, the HTTP server and the `Config` fields: I/O and glue.
- Logging and the JSON debug dumps inside `refresh` and `PodAllowedToConnect`.
- `SetLogLevel`, `ParseFlags`, `HomeDir` and main.go: flag parsing, environment and logger set-up.
- Selector `MatchExpressions`: the code never reads them.
- IPNet.ParseCIDR: IPv6 text, and the exact corner cases of Go's parser beyond dotted-quad IPv4 with a decimal prefix length, are not modelled; such text parses to nothing.
- IPNet.ParseIP: IPv6 and IPv4-in-IPv6 text parse to nothing.
- Server.Server.Refresh: Go assigns `s.pods` before the two setters mutate the list through that pointer; the model prepares the pods first and then assigns the field. No observer sees the difference in a single thread.
- Helpers.LabelsMatch: Go's map iteration order is modelled by an arbitrary choice of the next key; the contract holds for every order.
- Server.Server.Publish, Server.Server.AddToGroup, Server.Server.AppendEdgesTo, PodList.AppendGoverning, Evaluator.PeerAllowed: parts of one Go function body given their own method so that each loop has its own contract.
