/** The methods around one endpoint: a set grown in place until no edge adds to it. */
module EndpointNeighborhood {
  import opened Collections
  import opened ServiceGraph

  const METHOD_TYPES := {
    "Endpoint", "ServiceOperation", "ImplementationMethod", "ConsumerMethodCall", "OperationBinding",
    "MethodEvidence", "MethodUnresolved", "MethodCallTarget", "Evidence"
  }

  const TOKEN_KEYS := {"canonical_key", "canonicalKey", "service_id", "serviceId", "endpoint_key", "endpointKey"}

  const REFERENCE_KEYS := {
    "endpoint_id", "endpointId", "provider_endpoint_reference", "providerEndpointReference",
    "target_reference", "targetReference", "service_id", "serviceId"
  }

  predicate IsMethodNode(n: Node) {
    "node_type" in n.props && n.props["node_type"].Text? && n.props["node_type"].text in METHOD_TYPES
  }

  predicate IsImplementation(n: Node) { HasText(n.props, "node_type", "ImplementationMethod") }

  /** The string values a record holds under some of its keys. */
  function Texts(p: Props, keys: set<string>): set<string> {
    set k | k in keys && k in p && p[k].Text? :: p[k].text
  }

  predicate IsSeed(n: Node, tokens: set<string>) {
    IsMethodNode(n) && Texts(n.props, REFERENCE_KEYS) * tokens != {}
  }

  function Seeds(nodes: seq<Node>, tokens: set<string>): set<string> {
    set n | n in nodes && IsSeed(n, tokens) :: n.id
  }

  /** What stays fixed while the set grows. */
  datatype Rules = Rules(byId: map<string, Node>, seeded: set<string>)

  predicate Follows(r: Rules, e: Edge) { e.target in r.byId && IsMethodNode(r.byId[e.target]) }

  predicate Backtracks(r: Rules, e: Edge) {
    && e.source in r.byId && IsMethodNode(r.byId[e.source])
    && (!IsImplementation(r.byId[e.source]) || e.target !in r.seeded)
  }

  function Touch(r: Rules, e: Edge, s: set<string>): (t: set<string>)
    ensures s <= t <= s + r.byId.Keys
  {
    if e.source in s && Follows(r, e) && e.target !in s then s + {e.target}
    else if e.target in s && Backtracks(r, e) && e.source !in s then s + {e.source}
    else s
  }

  function Pass(r: Rules, edges: seq<Edge>, s: set<string>): (t: set<string>)
    ensures s <= t <= s + r.byId.Keys
  {
    if edges == [] then s else Pass(r, edges[1..], Touch(r, edges[0], s))
  }

  function Saturate(r: Rules, edges: seq<Edge>, s: set<string>): (t: set<string>)
    ensures s <= t <= s + r.byId.Keys
    decreases r.byId.Keys - s
  {
    var t := Pass(r, edges, s);
    if t == s then s
    else
      assert exists x :: x in t && x !in s;
      Saturate(r, edges, t)
  }

  /** Closed under the two edge rules, whatever the order of the edges. */
  ghost predicate Closed(r: Rules, edges: seq<Edge>, s: set<string>) {
    forall e :: e in edges ==>
      && (e.source in s && Follows(r, e) ==> e.target in s)
      && (e.target in s && Backtracks(r, e) ==> e.source in s)
  }

  function Grow(nodes: seq<Node>, edges: seq<Edge>, endpointId: string, tokens: set<string>): set<string> {
    var seeded := Seeds(nodes, tokens);
    Saturate(Rules(ById(nodes), seeded), edges, {endpointId} + seeded)
  }

  function Tokens(endpoint: Node): set<string> { {endpoint.id} + Texts(endpoint.props, TOKEN_KEYS) }

  function EndsWithin(edges: seq<Edge>, ids: set<string>): seq<Edge> {
    Filter(edges, (e: Edge) => e.source in ids && e.target in ids)
  }

  function Neighborhood(nodes: seq<Node>, edges: seq<Edge>, endpointId: string): Graph {
    var byId := ById(nodes);
    if endpointId !in byId || !HasText(byId[endpointId].props, "node_type", "Endpoint") then Graph([], [])
    else
      var s := Grow(nodes, edges, endpointId, Tokens(byId[endpointId]));
      Graph(NodesWithin(nodes, s), EndsWithin(edges, s))
  }

  // ----- least closed set -----

  lemma {:induction false} PassFixed(r: Rules, edges: seq<Edge>, s: set<string>)
    requires Pass(r, edges, s) == s
    ensures Closed(r, edges, s)
  {
    if edges != [] {
      assert Touch(r, edges[0], s) == s;
      PassFixed(r, edges[1..], s);
      assert edges == [edges[0]] + edges[1..];
    }
  }

  lemma {:induction false} PassBelow(r: Rules, edges: seq<Edge>, s: set<string>, bound: set<string>)
    requires s <= bound && Closed(r, edges, bound)
    ensures Pass(r, edges, s) <= bound
  {
    if edges != [] {
      assert edges[0] in edges;
      assert Closed(r, edges[1..], bound);
      PassBelow(r, edges[1..], Touch(r, edges[0], s), bound);
    }
  }

  /** The grown set is the least closed set above its start. */
  lemma {:induction false} SaturateLeast(r: Rules, edges: seq<Edge>, s: set<string>)
    ensures Closed(r, edges, Saturate(r, edges, s))
    ensures forall bound :: s <= bound && Closed(r, edges, bound) ==> Saturate(r, edges, s) <= bound
    decreases r.byId.Keys - s
  {
    var t := Pass(r, edges, s);
    if t == s {
      PassFixed(r, edges, s);
    } else {
      assert exists x :: x in t && x !in s;
      SaturateLeast(r, edges, t);
      forall bound | s <= bound && Closed(r, edges, bound) ensures Saturate(r, edges, s) <= bound {
        PassBelow(r, edges, s, bound);
      }
    }
  }

  /** The order of nodes and edges in the stored graph does not matter. */
  lemma GrowOrderFree(
    nodes: seq<Node>, nodes': seq<Node>, edges: seq<Edge>, edges': seq<Edge>, endpointId: string, tokens: set<string>)
    requires UniqueNodes(nodes) && UniqueNodes(nodes') && SameElements(nodes, nodes') && SameElements(edges, edges')
    ensures Grow(nodes, edges, endpointId, tokens) == Grow(nodes', edges', endpointId, tokens)
  {
    ByIdSame(nodes, nodes');
    var seeded := Seeds(nodes, tokens);
    assert seeded == Seeds(nodes', tokens);
    var r := Rules(ById(nodes), seeded);
    var s := {endpointId} + seeded;
    SaturateLeast(r, edges, s);
    SaturateLeast(r, edges', s);
    assert forall bound :: Closed(r, edges, bound) <==> Closed(r, edges', bound);
  }

  /** What the query returns is exactly the least closed set and the edges inside it. */
  lemma NeighborhoodLeast(nodes: seq<Node>, edges: seq<Edge>, endpoint: Node)
    requires UniqueNodes(nodes) && endpoint in nodes && HasText(endpoint.props, "node_type", "Endpoint")
    ensures var g := Neighborhood(nodes, edges, endpoint.id);
            var seeded := Seeds(nodes, Tokens(endpoint));
            var r := Rules(ById(nodes), seeded);
            var s := Ids(g.nodes);
            && Closed(r, edges, s) && {endpoint.id} + seeded <= s
            && (forall bound :: {endpoint.id} + seeded <= bound && Closed(r, edges, bound) ==> s <= bound)
            && (forall n :: n in g.nodes <==> n in nodes && n.id in s)
            && (forall e :: e in g.edges <==> e in edges && e.source in s && e.target in s)
  {
    ByIdFinds(nodes, endpoint);
    var seeded := Seeds(nodes, Tokens(endpoint));
    var r := Rules(ById(nodes), seeded);
    SaturateLeast(r, edges, {endpoint.id} + seeded);
    var s := Grow(nodes, edges, endpoint.id, Tokens(endpoint));
    var g := Neighborhood(nodes, edges, endpoint.id);
    WithinIds(nodes, s);
  }

  // ----- the rules on the stored records -----

  ghost predicate Typed(n: Node, nodeType: string) {
    "node_type" in n.props && n.props["node_type"] == Text(nodeType)
  }

  /** The record is of one of the kinds that method evidence is made of. */
  ghost predicate OfMethodKind(n: Node) {
    || Typed(n, "Endpoint") || Typed(n, "ServiceOperation") || Typed(n, "ImplementationMethod")
    || Typed(n, "ConsumerMethodCall") || Typed(n, "OperationBinding") || Typed(n, "MethodEvidence")
    || Typed(n, "MethodUnresolved") || Typed(n, "MethodCallTarget") || Typed(n, "Evidence")
  }

  /** One of the named properties is this text. */
  ghost predicate Holds(p: Props, keys: set<string>, text: string) {
    exists key :: key in keys && key in p && p[key] == Text(text)
  }

  /** The endpoint goes by its id and by the texts of its key and service properties. */
  ghost predicate GoesBy(endpoint: Node, text: string) {
    text == endpoint.id
    || Holds(endpoint.props,
             {"canonical_key", "canonicalKey", "service_id", "serviceId", "endpoint_key", "endpointKey"}, text)
  }

  /** A record of a method kind that refers to the endpoint by something it goes by. */
  ghost predicate RefersTo(n: Node, endpoint: Node) {
    OfMethodKind(n)
    && exists text :: GoesBy(endpoint, text)
         && Holds(n.props,
                  {"endpoint_id", "endpointId", "provider_endpoint_reference", "providerEndpointReference",
                   "target_reference", "targetReference", "service_id", "serviceId"}, text)
  }

  /** The edge ends at a record of a method kind. */
  ghost predicate LeadsIn(nodes: seq<Node>, e: Edge) { exists n :: n in nodes && n.id == e.target && OfMethodKind(n) }

  /** The edge starts at a record of a method kind; an implementation must not end at what refers to the endpoint. */
  ghost predicate LeadsOut(nodes: seq<Node>, endpoint: Node, e: Edge) {
    exists n :: n in nodes && n.id == e.source && OfMethodKind(n)
      && (Typed(n, "ImplementationMethod") ==>
            !exists m :: m in nodes && m.id == e.target && RefersTo(m, endpoint))
  }

  /** The ids hold the endpoint and what refers to it, and no edge leads on to a record of a method kind outside. */
  ghost predicate ClosedAround(nodes: seq<Node>, edges: seq<Edge>, endpoint: Node, s: set<string>) {
    && endpoint.id in s && (forall n :: n in nodes && RefersTo(n, endpoint) ==> n.id in s)
    && forall e :: e in edges ==>
         && (e.source in s && LeadsIn(nodes, e) ==> e.target in s)
         && (e.target in s && LeadsOut(nodes, endpoint, e) ==> e.source in s)
  }

  lemma MethodKinds(n: Node)
    ensures IsMethodNode(n) <==> OfMethodKind(n)
    ensures IsImplementation(n) <==> Typed(n, "ImplementationMethod")
  {
  }

  lemma TextsHeld(p: Props, keys: set<string>)
    ensures forall text :: text in Texts(p, keys) <==> Holds(p, keys, text)
  {
  }

  lemma SeedsRefer(n: Node, endpoint: Node)
    ensures IsSeed(n, Tokens(endpoint)) <==> RefersTo(n, endpoint)
  {
    MethodKinds(n);
    TextsHeld(endpoint.props, TOKEN_KEYS);
    TextsHeld(n.props, REFERENCE_KEYS);
    hide Texts, Holds, IsMethodNode, OfMethodKind;
    assert forall text :: text in Tokens(endpoint) <==> GoesBy(endpoint, text);
    if RefersTo(n, endpoint) {
      var text :| GoesBy(endpoint, text) && Holds(n.props, REFERENCE_KEYS, text);
      assert text in Texts(n.props, REFERENCE_KEYS) * Tokens(endpoint);
    }
  }

  lemma RulesAround(nodes: seq<Node>, edges: seq<Edge>, endpoint: Node, s: set<string>)
    requires UniqueNodes(nodes)
    ensures var seeded := Seeds(nodes, Tokens(endpoint));
            {endpoint.id} + seeded <= s && Closed(Rules(ById(nodes), seeded), edges, s)
            <==> ClosedAround(nodes, edges, endpoint, s)
  {
    var seeded := Seeds(nodes, Tokens(endpoint));
    SeededRefer(nodes, endpoint);
    forall e | e in edges {
      EdgeRules(nodes, endpoint, e);
    }
    hide Follows, Backtracks, LeadsIn, LeadsOut, RefersTo, Seeds, Tokens, ById;
  }

  lemma SeededRefer(nodes: seq<Node>, endpoint: Node)
    ensures forall id :: id in Seeds(nodes, Tokens(endpoint))
                         <==> exists n :: n in nodes && n.id == id && RefersTo(n, endpoint)
  {
    forall n ensures IsSeed(n, Tokens(endpoint)) <==> RefersTo(n, endpoint) { SeedsRefer(n, endpoint); }
    hide IsSeed, RefersTo, Tokens;
  }

  lemma EdgeRules(nodes: seq<Node>, endpoint: Node, e: Edge)
    requires UniqueNodes(nodes)
    ensures var r := Rules(ById(nodes), Seeds(nodes, Tokens(endpoint)));
            (Follows(r, e) <==> LeadsIn(nodes, e)) && (Backtracks(r, e) <==> LeadsOut(nodes, endpoint, e))
  {
    SeededRefer(nodes, endpoint);
    forall n ensures IsMethodNode(n) <==> OfMethodKind(n) { MethodKinds(n); }
    forall n ensures IsImplementation(n) <==> Typed(n, "ImplementationMethod") { MethodKinds(n); }
    forall n | n in nodes ensures n.id in ById(nodes) && ById(nodes)[n.id] == n { ByIdFinds(nodes, n); }
    hide RefersTo, IsMethodNode, OfMethodKind, IsImplementation, Typed, Tokens, ById, Seeds;
  }

  /**
   On the stored records: a node is returned exactly when its id lies in every set closed around the
   endpoint, an edge exactly when both its ends do; without an endpoint of that id nothing is.
   */
  lemma NeighborhoodExact(nodes: seq<Node>, edges: seq<Edge>, endpointId: string)
    requires UniqueNodes(nodes)
    ensures var g := Neighborhood(nodes, edges, endpointId);
            && (forall endpoint :: endpoint in nodes && endpoint.id == endpointId && Typed(endpoint, "Endpoint") ==>
                  && (forall n :: n in g.nodes
                        <==> (n in nodes && forall s :: ClosedAround(nodes, edges, endpoint, s) ==> n.id in s))
                  && (forall e :: e in g.edges <==> e in edges && e.source in Ids(g.nodes) && e.target in Ids(g.nodes)))
            && ((forall n :: n in nodes && n.id == endpointId ==> !Typed(n, "Endpoint")) ==> g == Graph([], []))
  {
    var g := Neighborhood(nodes, edges, endpointId);
    forall endpoint | endpoint in nodes && endpoint.id == endpointId && Typed(endpoint, "Endpoint")
      ensures forall n :: n in g.nodes
                <==> (n in nodes && forall s :: ClosedAround(nodes, edges, endpoint, s) ==> n.id in s)
      ensures forall e :: e in g.edges <==> e in edges && e.source in Ids(g.nodes) && e.target in Ids(g.nodes)
    {
      NeighborhoodLeast(nodes, edges, endpoint);
      forall s {
        RulesAround(nodes, edges, endpoint, s);
      }
      hide Neighborhood, Closed, ClosedAround, Seeds, Tokens, ById;
    }
    if endpointId in ById(nodes) {
      assert ById(nodes)[endpointId] in nodes;
    }
  }

  // ----- the loop itself -----

  lemma SeedsEmpty(nodes: seq<Node>, tokens: set<string>)
    ensures Seeds(nodes[..0], tokens) == {}
  {
  }

  lemma SeedsSnoc(nodes: seq<Node>, n: Node, tokens: set<string>)
    ensures Seeds(nodes + [n], tokens) == Seeds(nodes, tokens) + (if IsSeed(n, tokens) then {n.id} else {})
  {
  }

  method EndpointMethodGraph(nodes: seq<Node>, edges: seq<Edge>, endpointId: string) returns (g: Graph)
    ensures g == Neighborhood(nodes, edges, endpointId)
  {
    hide IsSeed, IsMethodNode, IsImplementation, Texts, Seeds;
    var byId := ById(nodes);
    if endpointId !in byId || !HasText(byId[endpointId].props, "node_type", "Endpoint") {
      return Graph([], []);
    }
    var tokens := Tokens(byId[endpointId]);
    var selected, seeded := {endpointId}, {};
    SeedsEmpty(nodes, tokens);
    for i := 0 to |nodes|
      invariant seeded == Seeds(nodes[..i], tokens) && selected == {endpointId} + seeded
    {
      TakeNext(nodes, i);
      SeedsSnoc(nodes[..i], nodes[i], tokens);
      if IsSeed(nodes[i], tokens) {
        selected := selected + {nodes[i].id};
        seeded := seeded + {nodes[i].id};
      }
    }
    TakeAll(nodes);
    ghost var r := Rules(byId, seeded);
    var changed := true;
    while changed
      invariant Saturate(r, edges, selected) == Grow(nodes, edges, endpointId, tokens)
      invariant !changed ==> Pass(r, edges, selected) == selected
      decreases byId.Keys - selected, changed
    {
      changed := false;
      ghost var before := selected;
      for i := 0 to |edges|
        invariant before <= selected <= before + byId.Keys && (changed <==> selected != before)
        invariant Pass(r, edges[i..], selected) == Pass(r, edges, before)
      {
        var source, target := edges[i].source, edges[i].target;
        assert edges[i..][0] == edges[i] && edges[i..][1..] == edges[i + 1..];
        if source in selected && target in byId && IsMethodNode(byId[target]) && target !in selected {
          selected := selected + {target};
          changed := true;
        } else if target in selected && source in byId && IsMethodNode(byId[source]) && source !in selected
            && (!IsImplementation(byId[source]) || target !in seeded) {
          selected := selected + {source};
          changed := true;
        }
      }
      if changed {
        assert exists x :: x in selected && x !in before;
      }
    }
    g := Graph(NodesWithin(nodes, selected), EndsWithin(edges, selected));
  }
}
