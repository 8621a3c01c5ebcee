/** Each operation and each page told from the records alone: which are shown, in what order, and to whom. */
module QueryExact {
  import opened Authorization
  import opened Cursor
  import opened CursorRun
  import EN = EndpointNeighborhood
  import opened Ordering
  import opened QueryService
  import opened References
  import opened ServiceGraph
  import opened Texts
  import opened Traversal
  import opened Wrappers

  // ----- cursor contexts -----

  /** Two requests share a cursor context exactly when they ask the same of the same scope within the same bounds. */
  lemma ContextExact(
    s: Service, p: string, a: Authorization, q: Request, op: Operation,
    p': string, a': Authorization, q': Request, op': Operation)
    ensures MakeContext(s, p, a, q, op) == MakeContext(s, p', a', q', op')
       <==> && p == p' && op == op' && a.workspaceId == a'.workspaceId && a.generationId == a'.generationId
            && s.repoDigest(a.repoIds) == s.repoDigest(a'.repoIds) && q.repoId == q'.repoId
            && q.pageSize == q'.pageSize && q.depth == q'.depth && q.nodeLimit == q'.nodeLimit
  {
  }

  /** The names under which contexts carry the operations. */
  lemma NamesExact(id: string)
    ensures Name(ServiceDirectory) == "service_directory" && Name(OperationDirectory) == "operation_directory"
    ensures Name(EndpointMethods(id)) == "endpoint_methods" && Name(Providers(id)) == "providers"
    ensures Name(Consumers(id)) == "consumers" && Name(Dependencies(id)) == "dependencies"
    ensures Name(Evidence(id)) == "evidence" && Name(Unresolved) == "unresolved"
    ensures Name(BuildTask(id)) == "build_task" && Name(Changes(id)) == "changes" && Name(Impact(id)) == "impact"
  {
  }

  // ----- operations -----

  ghost predicate Says(p: Props, key: string, text: string) { key in p && p[key] == Text(text) }

  ghost predicate Touches(e: Edge, id: string) { e.source == id || e.target == id || e.id == id }

  ghost predicate EndsOne(id: string, edges: seq<Edge>) { exists e :: e in edges && (id == e.source || id == e.target) }

  /** The edges an operation shows of those that are seen. */
  ghost predicate EdgeShown(op: Operation, e: Edge) {
    match op
    case BuildTask(id) => Touches(e, id)
    case Evidence(id) =>
      && Touches(e, id)
      && (Says(e.props, "relation_type", "SUPPORTED_BY_EVIDENCE") || Says(e.props, "relation_type", "METHOD_EVIDENCE"))
    case _ => true
  }

  /** The nodes it shows of those that are seen, given the edges. */
  ghost predicate NodeShown(op: Operation, edges: seq<Edge>, n: Node) {
    match op
    case OperationDirectory => Says(n.props, "node_type", "ServiceOperation")
    case Unresolved => Says(n.props, "node_type", "MethodUnresolved")
    case Providers(key) => Says(n.props, "canonical_key", key) && Says(n.props, "role", "provider")
    case Consumers(key) => Says(n.props, "canonical_key", key) && Says(n.props, "role", "consumer")
    case BuildTask(id) =>
      Says(n.props, "node_type", "BuildTask") && (n.id == id || EndsOne(n.id, edges))
    case Evidence(_) => EndsOne(n.id, edges)
    case _ => true
  }

  /** What an operation leaves of the seen graph: a traversal, a neighbourhood, or records by their properties. */
  lemma NarrowExact(op: Operation, q: Request, g: Graph)
    requires UniqueEdges(g.edges)
    ensures var r := Narrow(op, q, g);
            match op
            case Dependencies(id) => r == Traverse(g.nodes, g.edges, id, q.depth, q.nodeLimit, false)
            case Impact(id) => r == Traverse(g.nodes, g.edges, id, q.depth, q.nodeLimit, true)
            case EndpointMethods(id) => r == EN.Neighborhood(g.nodes, g.edges, id)
            case _ =>
              && (forall e :: e in r.edges <==> e in g.edges && EdgeShown(op, e))
              && (forall n :: n in r.nodes <==> n in g.nodes && NodeShown(op, r.edges, n))
  {
    hide Traverse, EN.Neighborhood, UniqueEdges;
    match op
    case Evidence(id) => EvidenceExact(q, g, id);
    case BuildTask(id) => TaskExact(q, g, id);
    case _ =>
  }

  lemma EndsOf(edges: seq<Edge>)
    ensures forall id :: id in EndIds(edges) <==> EndsOne(id, edges)
  {
  }

  lemma AttachedExact(g: Graph, id: string)
    ensures var r := Attached(g, id);
            && (forall e :: e in r.edges <==> e in g.edges && Touches(e, id))
            && (forall n :: n in r.nodes <==> n in g.nodes && (n.id == id || EndsOne(n.id, r.edges)))
  {
    AttachedIs(g, id);
    var r := Attached(g, id);
    EndsOf(r.edges);
    hide *;
    forall n {
      WithinMember(g.nodes, {id} + EndIds(r.edges), n);
    }
  }

  lemma AttachedIs(g: Graph, id: string)
    ensures var r := Attached(g, id);
            && (forall e :: e in r.edges <==> e in g.edges && Touches(e, id))
            && r.nodes == NodesWithin(g.nodes, {id} + EndIds(r.edges))
  {
    hide NodesWithin, EndIds;
  }

  lemma RestrictedIs(g: Graph, id: string)
    ensures var op := Evidence(id);
            var r := RestrictRelations(op, g);
            && (forall e :: e in r.edges
                  <==> && e in g.edges
                       && (Says(e.props, "relation_type", "SUPPORTED_BY_EVIDENCE")
                           || Says(e.props, "relation_type", "METHOD_EVIDENCE")))
            && r.nodes == NodesWithin(g.nodes, EndIds(r.edges))
  {
    hide NodesWithin, EndIds;
  }

  lemma EvidenceExact(q: Request, g: Graph, id: string)
    requires UniqueEdges(g.edges)
    ensures var op := Evidence(id);
            var r := Narrow(op, q, g);
            && (forall e :: e in r.edges <==> e in g.edges && EdgeShown(op, e))
            && (forall n :: n in r.nodes <==> n in g.nodes && NodeShown(op, r.edges, n))
  {
    EvidenceIs(q, g, id);
    var t := Attached(g, id);
    var r := RestrictRelations(Evidence(id), t);
    hide *;
    AttachedExact(g, id);
    RestrictedIs(t, id);
    EndsOf(r.edges);
    forall e {
      EvidenceShows(id, e);
    }
    forall n ensures n in r.nodes <==> n in g.nodes && NodeShown(Evidence(id), r.edges, n) {
      WithinMember(t.nodes, EndIds(r.edges), n);
      EndsMore(n, r.edges, t.edges, id);
    }
  }

  lemma EvidenceIs(q: Request, g: Graph, id: string)
    requires UniqueEdges(g.edges)
    ensures Narrow(Evidence(id), q, g) == RestrictRelations(Evidence(id), Attached(g, id))
  {
    hide UniqueEdges, Attached, RestrictRelations;
    assert Graph(g.nodes, g.edges) == g;
  }

  lemma EvidenceShows(id: string, e: Edge)
    ensures EdgeShown(Evidence(id), e)
       <==> && Touches(e, id)
            && (Says(e.props, "relation_type", "SUPPORTED_BY_EVIDENCE")
                || Says(e.props, "relation_type", "METHOD_EVIDENCE"))
  {
    hide Touches, Says;
  }

  lemma EndsMore(n: Node, edges: seq<Edge>, more: seq<Edge>, id: string)
    requires forall e :: e in edges ==> e in more
    ensures NodeShown(Evidence(id), edges, n) <==> EndsOne(n.id, edges)
    ensures EndsOne(n.id, edges) ==> EndsOne(n.id, more)
  {
  }

  lemma TaskExact(q: Request, g: Graph, id: string)
    requires UniqueEdges(g.edges)
    ensures var op := BuildTask(id);
            var r := Narrow(op, q, g);
            && (forall e :: e in r.edges <==> e in g.edges && EdgeShown(op, e))
            && (forall n :: n in r.nodes <==> n in g.nodes && NodeShown(op, r.edges, n))
  {
    var op := BuildTask(id);
    var typed := Graph(SelectNodes(op, g.nodes), g.edges);
    AttachedExact(typed, id);
    TaskNodes(g.nodes, id);
    assert Narrow(op, q, g) == Attached(typed, id);
    hide UniqueEdges, Attached, Narrow, EndsOne, Touches, SelectNodes, Says;
  }

  lemma TaskNodes(nodes: seq<Node>, id: string)
    ensures forall n :: n in SelectNodes(BuildTask(id), nodes)
                        <==> n in nodes && Says(n.props, "node_type", "BuildTask")
  {
    var types := NodeTypes(BuildTask(id));
    assert types == {"BuildTask"} && "BuildTask" in types && EndpointKey(BuildTask(id)).None?;
    forall n: Node ensures HasTextIn(n.props, "node_type", types) <==> Says(n.props, "node_type", "BuildTask") {}
    hide HasTextIn, Says, NodeTypes, EndpointKey, Role;
  }

  // ----- the view that pages are cut from -----

  /** Ids in ascending order, none twice. */
  ghost predicate NodesAscend(nodes: seq<Node>) {
    forall i, j :: 0 <= i < j < |nodes| ==> StrLe(nodes[i].id, nodes[j].id) && nodes[i].id != nodes[j].id
  }

  ghost predicate EdgesAscend(edges: seq<Edge>) {
    forall i, j :: 0 <= i < j < |edges| ==> StrLe(edges[i].id, edges[j].id) && edges[i].id != edges[j].id
  }

  /**
   The view holds the public records in the order of their ids, of the nodes the first up to the limit:
   a node left out comes after every node that is in.
   */
  lemma ViewExact(g: Graph, limit: nat)
    requires UniqueIds(g)
    ensures var v := MakeView(g, limit);
            && NodesAscend(v.nodes) && EdgesAscend(v.edges)
            && |v.nodes| == (if |g.nodes| <= limit then |g.nodes| else limit)
            && (forall n :: n in v.nodes ==> exists m :: m in g.nodes && n == PublicNode(m))
            && (forall m :: m in g.nodes ==> PublicNode(m) in v.nodes || forall n :: n in v.nodes ==> StrLe(n.id, m.id))
            && (forall e :: e in v.edges <==> exists f :: f in g.edges && e == PublicEdge(f))
  {
    hide *;
    ViewNodesExact(g, limit);
    ViewEdgesExact(g, limit);
  }

  lemma ViewNodesExact(g: Graph, limit: nat)
    requires UniqueIds(g)
    ensures var v := MakeView(g, limit);
            && NodesAscend(v.nodes) && |v.nodes| == (if |g.nodes| <= limit then |g.nodes| else limit)
            && (forall n :: n in v.nodes ==> exists m :: m in g.nodes && n == PublicNode(m))
            && (forall m :: m in g.nodes ==> PublicNode(m) in v.nodes || forall n :: n in v.nodes ==> StrLe(n.id, m.id))
  {
    var public, sorted := PublicNodes(g.nodes), Sort(PublicNodes(g.nodes), NodeLe);
    PublicUnique(g);
    SortNodesUnique(public);
    StrLeIsOrder();
    SortSorted(public, NodeLe);
    assert MakeView(g, limit).nodes == Cut(sorted, limit);
    hide *;
    PublicMembers(g.nodes);
    CutAscends(sorted, limit);
    forall m | m in g.nodes && PublicNode(m) !in MakeView(g, limit).nodes
      ensures forall n :: n in MakeView(g, limit).nodes ==> StrLe(n.id, m.id)
    {
      PublicId(m);
    }
  }

  /** The first of some sorted nodes come before the others. */
  lemma CutAscends(sorted: seq<Node>, limit: nat)
    requires Sorted(sorted, NodeLe) && UniqueNodes(sorted)
    ensures var r := Cut(sorted, limit);
            && NodesAscend(r) && |r| == (if |sorted| <= limit then |sorted| else limit)
            && (forall n :: n in r ==> n in sorted)
            && forall m, n :: m in sorted && m !in r && n in r ==> StrLe(n.id, m.id)
  {
    hide StrLe;
    var r := Cut(sorted, limit);
    assert forall k :: 0 <= k < |r| ==> sorted[k] == r[k] && r[k] in r;
    forall m, n | m in sorted && m !in r && n in r ensures StrLe(n.id, m.id) {
      var j :| 0 <= j < |sorted| && sorted[j] == m;
      var i :| 0 <= i < |r| && r[i] == n;
      assert sorted[i] == n;
    }
  }

  lemma PublicId(n: Node)
    ensures PublicNode(n).id == n.id
  {
  }

  lemma ViewEdgesExact(g: Graph, limit: nat)
    requires UniqueIds(g)
    ensures var v := MakeView(g, limit);
            EdgesAscend(v.edges) && forall e :: e in v.edges <==> exists f :: f in g.edges && e == PublicEdge(f)
  {
    var public := PublicEdges(g.edges);
    PublicUnique(g);
    PublicEdgeMembers(g.edges);
    SortEdgesUnique(public);
    StrLeIsOrder();
    SortSorted(public, EdgeLe);
    hide Sort, StrLe, PublicEdges, UniqueIds, PublicEdge;
  }

  // ----- pages -----

  /** The nodes counted on the page: those at its places in the view. */
  ghost predicate Primary(v: View, offset: nat, size: nat, id: string) {
    exists i :: offset <= i < offset + size && i < |v.nodes| && v.nodes[i].id == id
  }

  /**
   A page shows the edges that leave from its primary nodes and end in the view, and of the view's
   nodes the primary ones and the ends of those edges, each cut down to what the page shows.
   */
  lemma PageExact(s: Service, a: Authorization, context: Context, v: View, offset: nat, size: nat)
    requires NodesAscend(v.nodes) && EdgesAscend(v.edges)
    ensures var page := CutPage(s, a, context, v, offset, size);
            && page.workspaceId == a.workspaceId && page.generationId == a.generationId
            && (page.visibility == FullView <==> a.isFull)
            && NodesAscend(page.nodes) && EdgesAscend(page.edges)
            && (forall e :: e in page.edges
                  <==> e in v.edges && Primary(v, offset, size, e.source) && e.target in Ids(v.nodes))
            && (forall n :: n in page.nodes
                  <==> exists m :: && m in v.nodes && n == m.(props := Sanitize(m.props, Ids(page.nodes), a.isFull))
                                   && (Primary(v, offset, size, m.id) || EndsOne(m.id, page.edges)))
            && (page.nextCursor.None? <==> |v.nodes| <= offset + size)
            && (page.nextCursor.Some? ==> page.nextCursor.value == Mint(s.signer, offset + size, context))
  {
    hide *;
    PageIs(s, a, context, v, offset, size);
    PageEdgesExact(v, offset, size);
    PageNodesExact(v, offset, size, a.isFull);
  }

  lemma PageIs(s: Service, a: Authorization, context: Context, v: View, offset: nat, size: nat)
    ensures var page := CutPage(s, a, context, v, offset, size);
            && page.workspaceId == a.workspaceId && page.generationId == a.generationId
            && (page.visibility == FullView <==> a.isFull)
            && page.edges == PageEdges(v, offset, size) && page.nodes == PageNodes(v, offset, size, a.isFull)
            && (page.nextCursor.None? <==> |v.nodes| <= offset + size)
            && (page.nextCursor.Some? ==> page.nextCursor.value == Mint(s.signer, offset + size, context))
  {
    hide PageEdges, PageNodes, Mint;
  }

  lemma PrimaryIds(v: View, offset: nat, size: nat)
    ensures forall id :: id in Ids(Slice(v.nodes, offset, offset + size)) <==> Primary(v, offset, size, id)
  {
    var slice := Slice(v.nodes, offset, offset + size);
    forall id | Primary(v, offset, size, id) ensures id in Ids(slice) {
      var i :| offset <= i < offset + size && i < |v.nodes| && v.nodes[i].id == id;
      assert slice[i - offset] == v.nodes[i];
    }
    forall id | id in Ids(slice) ensures Primary(v, offset, size, id) {
      var k :| 0 <= k < |slice| && slice[k].id == id;
      assert slice[k] == v.nodes[offset + k];
    }
  }

  lemma PageEdgesExact(v: View, offset: nat, size: nat)
    requires EdgesAscend(v.edges)
    ensures EdgesAscend(PageEdges(v, offset, size))
    ensures forall e :: e in PageEdges(v, offset, size)
              <==> e in v.edges && Primary(v, offset, size, e.source) && e.target in Ids(v.nodes)
  {
    PrimaryIds(v, offset, size);
    PrimaryIn(v, offset, size);
    var sources, ordered := Ids(Slice(v.nodes, offset, offset + size)), Ids(v.nodes);
    assert Sorted(v.edges, EdgeLe);
    FilterSorted(v.edges, EdgeLe, (e: Edge) => e.source in sources && e.source in ordered && e.target in ordered);
    FilterUniqueEdges(v.edges, (e: Edge) => e.source in sources && e.source in ordered && e.target in ordered);
    hide StrLe, Ids, Slice, Primary;
  }

  lemma PrimaryIn(v: View, offset: nat, size: nat)
    ensures forall id :: Primary(v, offset, size, id) ==> id in Ids(v.nodes)
  {
  }

  lemma PageNodesExact(v: View, offset: nat, size: nat, isFull: bool)
    requires NodesAscend(v.nodes)
    ensures var nodes := PageNodes(v, offset, size, isFull);
            && NodesAscend(nodes)
            && (forall n :: n in nodes
                  <==> exists m :: && m in v.nodes && n == m.(props := Sanitize(m.props, Ids(nodes), isFull))
                                   && (Primary(v, offset, size, m.id)
                                       || EndsOne(m.id, PageEdges(v, offset, size))))
  {
    PageIdsAre(v, offset, size, isFull);
    PageNodesAre(v, offset, size, isFull);
    PageIdsExact(v, offset, size);
    SanitizedExact(v.nodes, PageIds(v, offset, size), isFull);
    hide *;
  }

  lemma PageIdsExact(v: View, offset: nat, size: nat)
    ensures forall id :: id in PageIds(v, offset, size)
                         <==> Primary(v, offset, size, id) || EndsOne(id, PageEdges(v, offset, size))
  {
    PrimaryIds(v, offset, size);
    EndsOf(PageEdges(v, offset, size));
    hide Primary, EndsOne, PageEdges, EndIds, Ids;
  }

  lemma SanitizedExact(nodes: seq<Node>, ids: set<string>, isFull: bool)
    requires NodesAscend(nodes)
    ensures var shown := SanitizeAll(NodesWithin(nodes, ids), ids, isFull);
            && NodesAscend(shown)
            && forall n :: n in shown
                 <==> exists m :: m in nodes && m.id in ids && n == m.(props := Sanitize(m.props, ids, isFull))
  {
    var kept := NodesWithin(nodes, ids);
    KeptAscends(nodes, ids);
    SanitizedMembers(kept, ids, isFull);
    hide *;
    forall n {
      WithinMember(nodes, ids, n);
    }
  }

  lemma KeptAscends(nodes: seq<Node>, ids: set<string>)
    requires NodesAscend(nodes)
    ensures NodesAscend(NodesWithin(nodes, ids))
  {
    hide StrLe;
    assert Sorted(nodes, NodeLe);
    FilterSorted(nodes, NodeLe, (n: Node) => n.id in ids);
    FilterUniqueNodes(nodes, (n: Node) => n.id in ids);
  }

  lemma SanitizedMembers(nodes: seq<Node>, ids: set<string>, isFull: bool)
    requires NodesAscend(nodes)
    ensures var shown := SanitizeAll(nodes, ids, isFull);
            && NodesAscend(shown)
            && forall n :: n in shown <==> exists m :: m in nodes && n == m.(props := Sanitize(m.props, ids, isFull))
  {
    var shown := SanitizeAll(nodes, ids, isFull);
    hide StrLe, Sanitize, SanitizeAll;
    forall m | m in nodes ensures SanitizeNode(m, ids, isFull) in shown {
      var k :| 0 <= k < |nodes| && nodes[k] == m;
      assert shown[k] == SanitizeNode(m, ids, isFull);
    }
    forall n | n in shown ensures exists m :: m in nodes && n == SanitizeNode(m, ids, isFull) {
      var k :| 0 <= k < |shown| && shown[k] == n;
      assert nodes[k] in nodes;
    }
  }

  // ----- answers -----

  ghost predicate BlankArgument(op: Operation) {
    match op
    case EndpointMethods(id) => !Nonblank(id)
    case Providers(key) => !Nonblank(key)
    case Consumers(key) => !Nonblank(key)
    case Dependencies(id) => !Nonblank(id)
    case Evidence(id) => !Nonblank(id)
    case BuildTask(id) => !Nonblank(id)
    case Changes(from) => !Nonblank(from)
    case Impact(id) => !Nonblank(id)
    case _ => false
  }

  /**
   A query gives a page exactly when its argument is not blank, the caller is authorized, the cursor
   was minted for this very context and the generation is readable. It is invalid for a blank argument
   or a wrong cursor; an unreadable generation is a conflict.
   */
  lemma QueryExactly(s: Service, stored: Option<Graph>, principal: string, q: Request, op: Operation)
    requires stored.Some? ==> UniqueIds(stored.value)
    ensures var r := Query(s, stored, principal, q, op);
            var a := Authorize(s.registry, principal, q.workspaceId, q.generationId);
            var fits := a.Ok? && Offset(s.signer, q.cursor, MakeContext(s, principal, a.value, q, op)).Ok?;
            && (r.Ok? <==> !BlankArgument(op) && fits && stored.Some?)
            && (r == Err(InvalidQuery) <==> BlankArgument(op) || (a.Ok? && !fits))
            && (r.Err? && r.error.NotAuthorized? ==>
                  if a.Err? then r.error.refusal == a.error else r.error.refusal == Refused(Conflict))
  {
    hide Nonblank, Authorize, MakeContext, CutPage, MakeView, Shown, UniqueIds;
  }

  /** The page given is cut, at the cursor's place, from what the operation leaves of the graph that the caller sees. */
  lemma PageServed(s: Service, stored: Graph, principal: string, q: Request, op: Operation)
    requires UniqueIds(stored) && Query(s, Some(stored), principal, q, op).Ok?
    ensures var a := Authorize(s.registry, principal, q.workspaceId, q.generationId);
            && a.Ok? && UniqueEdges(FilterGraph(stored, a.value.repoIds, q.repoId).edges)
            && var context := MakeContext(s, principal, a.value, q, op);
               var offset := Offset(s.signer, q.cursor, context);
               var g := Narrow(op, q, FilterGraph(stored, a.value.repoIds, q.repoId));
               && offset.Ok?
               && Query(s, Some(stored), principal, q, op).value
                  == CutPage(s, a.value, context, MakeView(g, q.nodeLimit), offset.value, q.pageSize)
  {
    var a := Authorize(s.registry, principal, q.workspaceId, q.generationId).value;
    FilterGraphUnique(stored, a.repoIds, q.repoId);
    hide Nonblank, Authorize, MakeContext, CutPage, MakeView, Narrow, FilterGraph, UniqueEdges, Offset;
  }
}
