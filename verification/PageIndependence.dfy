/**
 What a page depends on. Two stored graphs that agree on what a caller may see give the caller the same
 pages, cursors and errors.
 */
module PageIndependence {
  import opened Authorization
  import opened Collections
  import Cursor
  import opened CursorRun
  import EN = EndpointNeighborhood
  import opened Ordering
  import opened QueryService
  import opened References
  import opened ServiceGraph
  import Texts
  import opened Traversal
  import opened Wrappers

  /** The two graphs hold the same allowed nodes and the same edges joining two of them. */
  ghost predicate AgreeOnVisible(g: Graph, h: Graph, allowed: set<string>) {
    && SameElements(VisibleNodes(g.nodes, allowed), VisibleNodes(h.nodes, allowed))
    && var ids := Ids(VisibleNodes(g.nodes, allowed));
       forall e: Edge :: e.source in ids && e.target in ids ==> (e in g.edges <==> e in h.edges)
  }

  /** Moreover the same edges with one end among the allowed nodes. */
  ghost predicate AgreeAroundVisible(g: Graph, h: Graph, allowed: set<string>) {
    && AgreeOnVisible(g, h, allowed)
    && var ids := Ids(VisibleNodes(g.nodes, allowed));
       forall e: Edge :: e.source in ids || e.target in ids ==> (e in g.edges <==> e in h.edges)
  }

  lemma SortedEdgesSame(a: seq<Edge>, b: seq<Edge>)
    requires UniqueEdges(a) && UniqueEdges(b) && SameElements(a, b) && Sorted(a, EdgeLe) && Sorted(b, EdgeLe)
    ensures a == b
  {
    DistinctSameMultiset(a, b);
    forall x, y | x in a && y in a && EdgeLe(x, y) && EdgeLe(y, x) ensures x == y {
      StrLeAntisymmetric(x.id, y.id);
      SameEdge(a, x, y);
    }
    SortedUnique(a, b, EdgeLe);
  }

  lemma SameDigraph(nodes: seq<Node>, edges: seq<Edge>, nodes': seq<Node>, edges': seq<Edge>, reverse: bool)
    requires UniqueEdges(edges) && UniqueEdges(edges') && SameElements(nodes, nodes')
    requires forall e: Edge :: e.source in Ids(nodes) && e.target in Ids(nodes) ==> (e in edges <==> e in edges')
    ensures Build(nodes, edges, reverse) == Build(nodes', edges', reverse)
  {
    var g, h := Build(nodes, edges, reverse), Build(nodes', edges', reverse);
    assert Ids(nodes) == Ids(nodes');
    BuildEdges(nodes, edges, reverse);
    BuildEdges(nodes', edges', reverse);
    BuildSorted(nodes, edges, reverse);
    BuildSorted(nodes', edges', reverse);
    hide Build, Sorted;
    SortedEdgesSame(g.edges, h.edges);
  }

  lemma SameTraversal(g: Graph, h: Graph, root: string, depth: nat, limit: nat, reverse: bool)
    requires UniqueEdges(g.edges) && UniqueEdges(h.edges) && SameElements(g.nodes, h.nodes)
    requires forall e: Edge :: e.source in Ids(g.nodes) && e.target in Ids(g.nodes) ==> (e in g.edges <==> e in h.edges)
    ensures var t := Traverse(g.nodes, g.edges, root, depth, limit, reverse);
            var u := Traverse(h.nodes, h.edges, root, depth, limit, reverse);
            t.edges == u.edges && SameElements(t.nodes, u.nodes)
  {
    assert Ids(g.nodes) == Ids(h.nodes);
    SameDigraph(g.nodes, g.edges, h.nodes, h.edges, reverse);
    BuildWellFormed(g.nodes, g.edges, reverse);
    hide Run, Build, SelectedEdges, UniqueEdges;
  }

  // ----- graphs that a page cannot tell apart -----

  /** The same nodes, and the same edges joining two of them. */
  ghost predicate Alike(t: Graph, u: Graph) {
    && UniqueIds(t) && UniqueIds(u) && SameElements(t.nodes, u.nodes)
    && forall e: Edge :: e.source in Ids(t.nodes) && e.target in Ids(t.nodes) ==> (e in t.edges <==> e in u.edges)
  }

  /** Moreover the same edges with one end among the nodes. */
  ghost predicate AlikeAround(t: Graph, u: Graph) {
    && Alike(t, u)
    && forall e: Edge :: e.source in Ids(t.nodes) || e.target in Ids(t.nodes) ==> (e in t.edges <==> e in u.edges)
  }

  lemma SplitUnique(g: Graph)
    requires UniqueIds(g)
    ensures UniqueNodes(g.nodes) && UniqueEdges(g.edges)
  {
  }

  /** Filtering two agreeing graphs leaves the same nodes and the same edges between them. */
  lemma FilteredAgree(g: Graph, h: Graph, allowed: set<string>)
    requires UniqueIds(g) && UniqueIds(h) && AgreeOnVisible(g, h, allowed)
    ensures Alike(FilterGraph(g, allowed, None), FilterGraph(h, allowed, None))
    ensures AgreeAroundVisible(g, h, allowed) ==>
              AlikeAround(FilterGraph(g, allowed, None), FilterGraph(h, allowed, None))
  {
    FilterGraphUnique(g, allowed, None);
    FilterGraphUnique(h, allowed, None);
    VisibleUnique(g, allowed);
    VisibleUnique(h, allowed);
    hide EdgeAllowed, VisibleNodes, UniqueNodes, UniqueEdges, ById;
    ByIdSame(VisibleNodes(g.nodes, allowed), VisibleNodes(h.nodes, allowed));
  }

  lemma VisibleUnique(g: Graph, allowed: set<string>)
    requires UniqueIds(g)
    ensures UniqueNodes(VisibleNodes(g.nodes, allowed))
  {
    FilterUniqueNodes(g.nodes, (n: Node) => NodeAllowed(n, allowed));
  }

  /** Narrowing to some of the nodes. */
  lemma AlikeFewer(t: Graph, u: Graph, p: Node -> bool)
    requires Alike(t, u)
    ensures Alike(Graph(Filter(t.nodes, p), t.edges), Graph(Filter(u.nodes, p), u.edges))
    ensures AlikeAround(t, u) ==> AlikeAround(Graph(Filter(t.nodes, p), t.edges), Graph(Filter(u.nodes, p), u.edges))
  {
    SplitUnique(t);
    SplitUnique(u);
    FilterUniqueNodes(t.nodes, p);
    FilterUniqueNodes(u.nodes, p);
    FewerIds(t.nodes, p);
    hide UniqueNodes, UniqueEdges, Ids;
  }

  lemma FewerIds(nodes: seq<Node>, p: Node -> bool)
    ensures Ids(Filter(nodes, p)) <= Ids(nodes)
  {
  }

  lemma AlikeSelected(op: Operation, t: Graph, u: Graph)
    requires Alike(t, u)
    ensures Alike(Graph(SelectNodes(op, t.nodes), t.edges), Graph(SelectNodes(op, u.nodes), u.edges))
    ensures AlikeAround(t, u) ==>
              AlikeAround(Graph(SelectNodes(op, t.nodes), t.edges), Graph(SelectNodes(op, u.nodes), u.edges))
  {
    hide Alike, AlikeAround, Filter;
    var typed := (n: Node) => HasTextIn(n.props, "node_type", NodeTypes(op));
    var t', u' := t, u;
    if NodeTypes(op) != {} {
      AlikeFewer(t, u, typed);
      t', u' := Graph(Filter(t.nodes, typed), t.edges), Graph(Filter(u.nodes, typed), u.edges);
    }
    if EndpointKey(op).Some? {
      var keyed := (n: Node) => HasText(n.props, "canonical_key", EndpointKey(op).value)
                                && HasText(n.props, "role", Role(op).value);
      AlikeFewer(t', u', keyed);
      assert SelectNodes(op, t.nodes) == Filter(t'.nodes, keyed) && SelectNodes(op, u.nodes) == Filter(u'.nodes, keyed);
    } else {
      assert SelectNodes(op, t.nodes) == t'.nodes && SelectNodes(op, u.nodes) == u'.nodes;
    }
  }

  lemma AlikeTraversed(t: Graph, u: Graph, root: string, depth: nat, limit: nat, reverse: bool)
    requires Alike(t, u) && depth >= 1 && limit >= 1
    ensures Alike(Traverse(t.nodes, t.edges, root, depth, limit, reverse),
                  Traverse(u.nodes, u.edges, root, depth, limit, reverse))
  {
    SplitUnique(t);
    SplitUnique(u);
    TraverseUnique(t, root, depth, limit, reverse);
    TraverseUnique(u, root, depth, limit, reverse);
    SameTraversal(t, u, root, depth, limit, reverse);
    hide Traverse, UniqueIds, Ids;
  }

  /** The edge rules look only at edges joining two nodes. */
  lemma SaturateJoined(r: EN.Rules, edges: seq<Edge>, edges': seq<Edge>, s: set<string>)
    requires s <= r.byId.Keys
    requires forall e: Edge :: e.source in r.byId && e.target in r.byId ==> (e in edges <==> e in edges')
    ensures EN.Saturate(r, edges, s) == EN.Saturate(r, edges', s)
  {
    var a, b := EN.Saturate(r, edges, s), EN.Saturate(r, edges', s);
    EN.SaturateLeast(r, edges, s);
    EN.SaturateLeast(r, edges', s);
    assert EN.Closed(r, edges', a) && EN.Closed(r, edges, b);
  }

  lemma AlikeNeighborhood(t: Graph, u: Graph, id: string)
    requires Alike(t, u)
    ensures Alike(EN.Neighborhood(t.nodes, t.edges, id), EN.Neighborhood(u.nodes, u.edges, id))
  {
    SplitUnique(t);
    SplitUnique(u);
    ByIdSame(t.nodes, u.nodes);
    hide UniqueIds, UniqueNodes, UniqueEdges, EN.Grow, EN.Tokens, ById, HasText, EN.EndsWithin, NodesWithin;
    var byId := ById(t.nodes);
    if id in byId && HasText(byId[id].props, "node_type", "Endpoint") {
      AlikeGrown(t, u, id, EN.Tokens(byId[id]));
      AlikeWithin(t, u, EN.Grow(t.nodes, t.edges, id, EN.Tokens(byId[id])));
    }
  }

  lemma SameSeeds(a: seq<Node>, b: seq<Node>, tokens: set<string>)
    requires SameElements(a, b)
    ensures EN.Seeds(a, tokens) == EN.Seeds(b, tokens) && EN.Seeds(a, tokens) <= Ids(a)
  {
    hide EN.IsSeed;
  }

  lemma AlikeGrown(t: Graph, u: Graph, id: string, tokens: set<string>)
    requires Alike(t, u) && id in Ids(t.nodes)
    ensures EN.Grow(t.nodes, t.edges, id, tokens) == EN.Grow(u.nodes, u.edges, id, tokens)
  {
    SplitUnique(t);
    SplitUnique(u);
    ByIdSame(t.nodes, u.nodes);
    SameSeeds(t.nodes, u.nodes, tokens);
    var seeded := EN.Seeds(t.nodes, tokens);
    hide UniqueIds, UniqueNodes, UniqueEdges, EN.Saturate, EN.Seeds, Ids;
    SaturateJoined(EN.Rules(ById(t.nodes), seeded), t.edges, u.edges, {id} + seeded);
  }

  lemma AlikeWithin(t: Graph, u: Graph, s: set<string>)
    requires Alike(t, u)
    ensures Alike(Graph(NodesWithin(t.nodes, s), EN.EndsWithin(t.edges, s)),
                  Graph(NodesWithin(u.nodes, s), EN.EndsWithin(u.edges, s)))
  {
    var within := (n: Node) => n.id in s;
    AlikeFewer(t, u, within);
    SplitUnique(t);
    SplitUnique(u);
    FilterUniqueEdges(t.edges, (e: Edge) => e.source in s && e.target in s);
    FilterUniqueEdges(u.edges, (e: Edge) => e.source in s && e.target in s);
    SplitUnique(Graph(Filter(t.nodes, within), t.edges));
    SplitUnique(Graph(Filter(u.nodes, within), u.edges));
    hide UniqueNodes, UniqueEdges;
  }

  /** Some edge attached to `id` ends at `x`. */
  ghost predicate Reached(edges: seq<Edge>, id: string, x: string) {
    exists e :: e in edges && (id == e.source || id == e.target || id == e.id) && (x == e.source || x == e.target)
  }

  lemma AttachedNode(g: Graph, id: string, n: Node)
    ensures n in Attached(g, id).nodes <==> n in g.nodes && (n.id == id || Reached(g.edges, id, n.id))
  {
    var edges := Attached(g, id).edges;
    EndsReached(edges, n.id);
    assert n.id in EndIds(edges) <==> Reached(g.edges, id, n.id);
    hide EndIds, Reached;
  }

  lemma EndsReached(edges: seq<Edge>, x: string)
    ensures x in EndIds(edges) <==> exists e :: e in edges && (x == e.source || x == e.target)
  {
  }

  lemma ReachedAround(t: Graph, u: Graph, id: string, x: string)
    requires AlikeAround(t, u) && x in Ids(t.nodes)
    ensures Reached(t.edges, id, x) <==> Reached(u.edges, id, x)
  {
    hide UniqueIds, Ids;
  }

  lemma AttachedEdge(g: Graph, id: string, e: Edge)
    ensures e in Attached(g, id).edges <==> e in g.edges && (id == e.source || id == e.target || id == e.id)
  {
  }

  lemma AttachedSome(g: Graph, id: string)
    requires UniqueIds(g)
    ensures UniqueIds(Attached(g, id)) && Ids(Attached(g, id).nodes) <= Ids(g.nodes)
  {
    AttachedUnique(g, id);
    FewerIds(g.nodes, (n: Node) => n.id in {id} + EndIds(Attached(g, id).edges));
    hide UniqueIds;
  }

  /** Edges with both ends outside the nodes attach nothing. */
  lemma AlikeAttached(t: Graph, u: Graph, id: string)
    requires AlikeAround(t, u)
    ensures AlikeAround(Attached(t, id), Attached(u, id))
  {
    assert UniqueIds(t) && UniqueIds(u);
    AttachedSome(t, id);
    AttachedSome(u, id);
    forall n ensures n in Attached(t, id).nodes <==> n in Attached(u, id).nodes {
      SameAttached(t, u, id, n);
    }
    forall e: Edge | e.source in Ids(t.nodes) || e.target in Ids(t.nodes)
      ensures e in Attached(t, id).edges <==> e in Attached(u, id).edges
    {
      AttachedEdge(t, id, e);
      AttachedEdge(u, id, e);
    }
    hide *;
    AroundIs(Attached(t, id), Attached(u, id), Ids(t.nodes));
  }

  lemma AroundIs(a: Graph, b: Graph, ids: set<string>)
    requires UniqueIds(a) && UniqueIds(b) && (forall n :: n in a.nodes <==> n in b.nodes) && Ids(a.nodes) <= ids
    requires forall e: Edge :: e.source in ids || e.target in ids ==> (e in a.edges <==> e in b.edges)
    ensures AlikeAround(a, b)
  {
    hide UniqueIds, Ids;
  }

  lemma SameAttached(t: Graph, u: Graph, id: string, n: Node)
    requires AlikeAround(t, u)
    ensures n in Attached(t, id).nodes <==> n in Attached(u, id).nodes
  {
    assert n in t.nodes <==> n in u.nodes;
    hide *;
    AttachedNode(t, id, n);
    AttachedNode(u, id, n);
    if n in t.nodes {
      NodeId(t.nodes, n);
      ReachedAround(t, u, id, n.id);
    }
  }

  lemma NodeId(nodes: seq<Node>, n: Node)
    requires n in nodes
    ensures n.id in Ids(nodes)
  {
  }

  lemma AlikeRestricted(op: Operation, t: Graph, u: Graph)
    requires AlikeAround(t, u)
    ensures Alike(RestrictRelations(op, t), RestrictRelations(op, u))
  {
    if RelationTypes(op) != {} {
      var p := (e: Edge) => HasTextIn(e.props, "relation_type", RelationTypes(op));
      AlikeOver(t, u, p);
      assert RestrictRelations(op, t) == Graph(NodesWithin(t.nodes, EndIds(Filter(t.edges, p))), Filter(t.edges, p));
      assert RestrictRelations(op, u) == Graph(NodesWithin(u.nodes, EndIds(Filter(u.edges, p))), Filter(u.edges, p));
      hide Alike, Filter, EndIds;
    }
  }

  lemma AlikeParts(t: Graph, u: Graph)
    requires AlikeAround(t, u)
    ensures UniqueNodes(t.nodes) && UniqueEdges(t.edges) && UniqueNodes(u.nodes) && UniqueEdges(u.edges)
    ensures forall n :: n in t.nodes <==> n in u.nodes
    ensures forall e: Edge :: e.source in Ids(t.nodes) && e.target in Ids(t.nodes) ==> (e in t.edges <==> e in u.edges)
  {
    hide Ids, UniqueNodes, UniqueEdges;
  }

  lemma AlikeIs(a: Graph, b: Graph, ids: set<string>)
    requires UniqueNodes(a.nodes) && UniqueEdges(a.edges) && UniqueNodes(b.nodes) && UniqueEdges(b.edges)
    requires (forall n :: n in a.nodes <==> n in b.nodes) && Ids(a.nodes) <= ids
    requires forall e: Edge :: e.source in ids && e.target in ids ==> (e in a.edges <==> e in b.edges)
    ensures Alike(a, b)
  {
    hide Ids, UniqueNodes, UniqueEdges;
  }

  /** Keeping some of the edges and the nodes they end at. */
  lemma AlikeOver(t: Graph, u: Graph, p: Edge -> bool)
    requires AlikeAround(t, u)
    ensures var a, b := Filter(t.edges, p), Filter(u.edges, p);
            Alike(Graph(NodesWithin(t.nodes, EndIds(a)), a), Graph(NodesWithin(u.nodes, EndIds(b)), b))
  {
    hide *;
    var a, b := Filter(t.edges, p), Filter(u.edges, p);
    AlikeParts(t, u);
    FilterUniqueEdges(t.edges, p);
    FilterUniqueEdges(u.edges, p);
    WithinUnique(t.nodes, EndIds(a));
    WithinUnique(u.nodes, EndIds(b));
    var c, d := NodesWithin(t.nodes, EndIds(a)), NodesWithin(u.nodes, EndIds(b));
    forall n ensures n in c <==> n in d {
      WithinMember(t.nodes, EndIds(a), n);
      WithinMember(u.nodes, EndIds(b), n);
      if n in t.nodes {
        NodeId(t.nodes, n);
        EndsOver(t, u, p, n.id);
      }
    }
    WithinMember(t.nodes, EndIds(a), Node("", map[]));
    AlikeIs(Graph(c, a), Graph(d, b), Ids(t.nodes));
  }

  lemma EndsOver(t: Graph, u: Graph, p: Edge -> bool, x: string)
    requires AlikeAround(t, u) && x in Ids(t.nodes)
    ensures x in EndIds(Filter(t.edges, p)) <==> x in EndIds(Filter(u.edges, p))
  {
    EndsReached(Filter(t.edges, p), x);
    EndsReached(Filter(u.edges, p), x);
    hide EndIds, Ids, UniqueIds;
  }

  /** Narrowing to an operation keeps two graphs alike, for some operations only if they agree around the nodes. */
  lemma AlikeNarrowed(op: Operation, q: Request, t: Graph, u: Graph)
    requires Alike(t, u) && q.depth >= 1 && q.nodeLimit >= 1
    requires op.Evidence? || op.BuildTask? ==> AlikeAround(t, u)
    ensures Alike(Narrow(op, q, t), Narrow(op, q, u))
  {
    AlikeSelected(op, t, u);
    var t', u' := Graph(SelectNodes(op, t.nodes), t.edges), Graph(SelectNodes(op, u.nodes), u.edges);
    assert UniqueEdges(t.edges) && UniqueEdges(u.edges);
    NarrowIs(op, q, t);
    NarrowIs(op, q, u);
    hide Narrow, SelectNodes, Alike, AlikeAround, RestrictRelations, Attached, EN.Neighborhood, Traverse;
    match op
    case EndpointMethods(id) => AlikeNeighborhood(t', u', id);
    case Dependencies(id) => AlikeTraversed(t', u', id, q.depth, q.nodeLimit, false);
    case Impact(id) => AlikeTraversed(t', u', id, q.depth, q.nodeLimit, true);
    case Evidence(id) =>
      AlikeAttached(t', u', id);
      AlikeRestricted(op, Attached(t', id), Attached(u', id));
    case BuildTask(id) =>
      AlikeAttached(t', u', id);
      AroundMeans(Attached(t', id), Attached(u', id));
    case _ =>
  }

  lemma AroundMeans(t: Graph, u: Graph)
    requires AlikeAround(t, u)
    ensures Alike(t, u)
  {
  }

  lemma NarrowIs(op: Operation, q: Request, g: Graph)
    requires UniqueEdges(g.edges)
    ensures var s := Graph(SelectNodes(op, g.nodes), g.edges);
            Narrow(op, q, g) == match op
              case EndpointMethods(id) => EN.Neighborhood(s.nodes, s.edges, id)
              case Dependencies(id) => Traverse(s.nodes, s.edges, id, q.depth, q.nodeLimit, false)
              case Impact(id) => Traverse(s.nodes, s.edges, id, q.depth, q.nodeLimit, true)
              case Evidence(id) => RestrictRelations(op, Attached(s, id))
              case BuildTask(id) => Attached(s, id)
              case _ => s
  {
    hide SelectNodes, Attached, EN.Neighborhood, Traverse, UniqueEdges;
  }

  // ----- alike graphs give the same pages -----

  lemma AlikeOrdered(t: Graph, u: Graph, limit: nat)
    requires Alike(t, u)
    ensures MakeView(t, limit).nodes == MakeView(u, limit).nodes
    ensures forall id :: id in Ids(MakeView(t, limit).nodes) ==> id in Ids(t.nodes)
  {
    PublicUnique(t);
    PublicUnique(u);
    var a, b := PublicNodes(t.nodes), PublicNodes(u.nodes);
    PublicMembers(t.nodes);
    PublicMembers(u.nodes);
    assert SameElements(a, b);
    SortNodesSame(a, b);
    SortElements(a, NodeLe);
    hide Sort, UniqueNodes, UniqueEdges, UniqueIds;
    var v := MakeView(t, limit).nodes;
    assert forall n :: n in v ==> n in Sort(a, NodeLe);
    forall id | id in Ids(v) ensures id in Ids(t.nodes) {
      var m :| m in v && m.id == id;
      var n :| n in t.nodes && m == PublicNode(n);
    }
  }

  /** The edges between ordered nodes are the same, and in the same order. */
  lemma AlikeEdgesFrom(t: Graph, u: Graph, limit: nat, sources: set<string>, ordered: set<string>)
    requires Alike(t, u) && ordered <= Ids(t.nodes)
    ensures EdgesFrom(MakeView(t, limit).edges, sources, ordered)
         == EdgesFrom(MakeView(u, limit).edges, sources, ordered)
  {
    var a := EdgesFrom(MakeView(t, limit).edges, sources, ordered);
    var b := EdgesFrom(MakeView(u, limit).edges, sources, ordered);
    EdgesFromShape(t, limit, sources, ordered);
    EdgesFromShape(u, limit, sources, ordered);
    forall m ensures m in a <==> m in b {
      EdgesFromMember(t, limit, sources, ordered, m);
      EdgesFromMember(u, limit, sources, ordered, m);
    }
    hide EdgesFrom, MakeView, UniqueIds, Ids, Sorted;
    SortedEdgesSame(a, b);
  }

  lemma EdgesFromShape(g: Graph, limit: nat, sources: set<string>, ordered: set<string>)
    requires UniqueIds(g)
    ensures var r := EdgesFrom(MakeView(g, limit).edges, sources, ordered); UniqueEdges(r) && Sorted(r, EdgeLe)
  {
    PublicUnique(g);
    var edges := PublicEdges(g.edges);
    SortEdgesUnique(edges);
    StrLeIsOrder();
    SortSorted(edges, EdgeLe);
    var p := (e: Edge) => e.source in sources && e.source in ordered && e.target in ordered;
    FilterUniqueEdges(Sort(edges, EdgeLe), p);
    FilterSorted(Sort(edges, EdgeLe), EdgeLe, p);
  }

  lemma EdgesFromMember(g: Graph, limit: nat, sources: set<string>, ordered: set<string>, m: Edge)
    ensures m in EdgesFrom(MakeView(g, limit).edges, sources, ordered)
       <==> && m.source in sources && m.source in ordered && m.target in ordered
            && exists e :: e in g.edges && m == PublicEdge(e)
  {
    var edges := PublicEdges(g.edges);
    PublicEdgeMembers(g.edges);
    SortElements(edges, EdgeLe);
  }

  lemma AlikePages(
    s: Service, a: Authorization, context: Cursor.Context, t: Graph, u: Graph, limit: nat, offset: nat, size: nat)
    requires Alike(t, u)
    ensures CutPage(s, a, context, MakeView(t, limit), offset, size)
         == CutPage(s, a, context, MakeView(u, limit), offset, size)
  {
    hide *;
    AlikeOrdered(t, u, limit);
    var v, w := MakeView(t, limit), MakeView(u, limit);
    assert forall id :: id in Ids(v.nodes) ==> id in Ids(t.nodes);
    AlikeEdgesFrom(t, u, limit, Ids(Slice(v.nodes, offset, offset + size)), Ids(v.nodes));
    PageEdgesAre(v, offset, size);
    PageEdgesAre(w, offset, size);
    SamePage(s, a, context, v, w, offset, size);
  }

  lemma SamePage(s: Service, a: Authorization, context: Cursor.Context, v: View, w: View, offset: nat, size: nat)
    requires v.nodes == w.nodes && PageEdges(v, offset, size) == PageEdges(w, offset, size)
    ensures CutPage(s, a, context, v, offset, size) == CutPage(s, a, context, w, offset, size)
  {
    hide PageEdges, SanitizeAll, Cursor.Mint, NodesWithin, EndIds;
  }

  /** An unauthorized caller gets the same answer from any two graphs, another one the page of what is shown. */
  lemma QueryOfShown(s: Service, g: Graph, h: Graph, principal: string, q: Request, op: Operation)
    requires UniqueIds(g) && UniqueIds(h)
    requires var authorized := Authorize(s.registry, principal, q.workspaceId, q.generationId);
             authorized.Ok? ==> Alike(Shown(g, authorized.value, q, op), Shown(h, authorized.value, q, op))
    ensures Query(s, Some(g), principal, q, op) == Query(s, Some(h), principal, q, op)
  {
    hide Authorize, MakeContext, CutPage, Cursor.Offset, MakeView, Shown, ArgumentsNonblank, Alike, UniqueIds;
    var authorized := Authorize(s.registry, principal, q.workspaceId, q.generationId);
    if authorized.Ok? && ArgumentsNonblank(op) {
      var a := authorized.value;
      var context := MakeContext(s, principal, a, q, op);
      var offset := Cursor.Offset(s.signer, q.cursor, context);
      if offset.Ok? {
        AlikePages(s, a, context, Shown(g, a, q, op), Shown(h, a, q, op), q.nodeLimit, offset.value, q.pageSize);
      }
    }
  }

  lemma ShownAlike(g: Graph, h: Graph, a: Authorization, q: Request, op: Operation)
    requires UniqueIds(g) && UniqueIds(h) && q.repoId.None? && ValidRequest(q)
    requires AgreeOnVisible(g, h, a.repoIds)
    requires op.Evidence? || op.BuildTask? ==> AgreeAroundVisible(g, h, a.repoIds)
    ensures Alike(Shown(g, a, q, op), Shown(h, a, q, op))
  {
    assert q.depth >= 1 && q.nodeLimit >= 1;
    FilteredAgree(g, h, a.repoIds);
    FilterGraphUnique(g, a.repoIds, None);
    FilterGraphUnique(h, a.repoIds, None);
    assert Shown(g, a, q, op) == Narrow(op, q, FilterGraph(g, a.repoIds, None));
    assert Shown(h, a, q, op) == Narrow(op, q, FilterGraph(h, a.repoIds, None));
    hide *;
    AlikeNarrowed(op, q, FilterGraph(g, a.repoIds, None), FilterGraph(h, a.repoIds, None));
  }

  /**
   Without a repository filter the pages, cursors and errors of a query are the same for any two stored
   graphs that agree on the allowed nodes and on the edges joining two of them; for `evidence` and
   `build_task` they must agree on the edges with one end among the allowed nodes as well.
   */
  lemma PagesVisibleOnly(s: Service, g: Graph, h: Graph, principal: string, q: Request, op: Operation)
    requires UniqueIds(g) && UniqueIds(h) && q.repoId.None? && ValidRequest(q)
    requires var authorized := Authorize(s.registry, principal, q.workspaceId, q.generationId);
             authorized.Ok? ==>
               && AgreeOnVisible(g, h, authorized.value.repoIds)
               && (op.Evidence? || op.BuildTask? ==> AgreeAroundVisible(g, h, authorized.value.repoIds))
    ensures Query(s, Some(g), principal, q, op) == Query(s, Some(h), principal, q, op)
  {
    hide *;
    var authorized := Authorize(s.registry, principal, q.workspaceId, q.generationId);
    if authorized.Ok? {
      ShownAlike(g, h, authorized.value, q, op);
    }
    QueryOfShown(s, g, h, principal, q, op);
  }

  // ----- whose answer does not depend on more -----

  /**
   Without a grant the answer to a query is the same refusal whatever the workspace and its graph hold,
   whether or not the graph can be read.
   */
  lemma UngrantedPages(
    s: Service, s': Service, stored: Option<Graph>, stored': Option<Graph>, principal: string, q: Request,
    op: Operation)
    requires (stored.Some? ==> UniqueIds(stored.value)) && (stored'.Some? ==> UniqueIds(stored'.value))
    requires !Granted(s.registry, principal, q.workspaceId) && !Granted(s'.registry, principal, q.workspaceId)
    ensures Query(s, stored, principal, q, op).Err?
    ensures Query(s, stored, principal, q, op) == Query(s', stored', principal, q, op)
  {
    hide Authorize, UniqueIds, CutPage, Cursor.Offset, ArgumentsNonblank;
    UngrantedLearnsNothing(s.registry, s'.registry, principal, q.workspaceId, q.generationId);
  }

  /** A query that names the active generation is answered, cursors included, as the one that names none. */
  lemma ActiveGenerationPages(
    s: Service, stored: Option<Graph>, principal: string, q: Request, op: Operation, generationId: string)
    requires (stored.Some? ==> UniqueIds(stored.value)) && Texts.Nonblank(generationId)
    requires Query(s, stored, principal, q.(generationId := Some(generationId)), op).Ok?
    ensures s.registry.active(q.workspaceId) == Some(generationId)
    ensures Query(s, stored, principal, q.(generationId := Some(generationId)), op)
         == Query(s, stored, principal, q.(generationId := None), op)
  {
    hide Authorize, UniqueIds, CutPage, Cursor.Offset, ArgumentsNonblank, MakeContext, MakeView, Shown;
    hide Texts.Nonblank;
    var named, plain := q.(generationId := Some(generationId)), q.(generationId := None);
    OnlyActiveGeneration(s.registry, principal, q.workspaceId, generationId);
    var authorized := Authorize(s.registry, principal, q.workspaceId, None);
    if authorized.Ok? {
      SameRequest(s, principal, authorized.value, named, plain, op);
      if stored.Some? { SameShown(stored.value, authorized.value, named, plain, op); }
    }
  }

  lemma SameRequest(s: Service, principal: string, a: Authorization, q: Request, r: Request, op: Operation)
    requires r == q.(generationId := r.generationId)
    ensures MakeContext(s, principal, a, q, op) == MakeContext(s, principal, a, r, op)
  {
  }

  lemma SameShown(stored: Graph, a: Authorization, q: Request, r: Request, op: Operation)
    requires UniqueIds(stored) && r == q.(generationId := r.generationId)
    ensures Shown(stored, a, q, op) == Shown(stored, a, r, op)
  {
    hide FilterGraph, SelectNodes, Traverse, UniqueIds;
    FilterGraphUnique(stored, a.repoIds, q.repoId);
  }
}
