/** Following `next_cursor` from the first page to the last loses and repeats nothing. */
module CursorRun {
  import opened Authorization
  import opened Collections
  import opened Cursor
  import EN = EndpointNeighborhood
  import opened Ordering
  import opened QueryService
  import References
  import opened ServiceGraph
  import opened Traversal
  import opened Wrappers

  /** The pages a client gets that asks again with each `next_cursor`, at most `steps` times. */
  function Follow(
    s: Service, stored: Option<Graph>, principal: string, q: Request, op: Operation, steps: nat): seq<Page>
    requires stored.Some? ==> UniqueIds(stored.value)
    decreases steps
  {
    if steps == 0 then []
    else
      var answer := Query(s, stored, principal, q, op);
      if answer.Err? then []
      else if answer.value.nextCursor.None? then [answer.value]
      else [answer.value] + Follow(s, stored, principal, q.(cursor := answer.value.nextCursor), op, steps - 1)
  }

  /** `n / size` rounded up, and 1 for no node at all; see `PageCountRoundsUp`. */
  function PageCount(n: nat, size: nat): nat
    requires size >= 1
  {
    if n <= size then 1 else 1 + PageCount(n - size, size)
  }

  lemma {:induction false} PageCountRoundsUp(n: nat, size: nat)
    requires size >= 1
    ensures n <= PageCount(n, size) * size
    ensures n > 0 ==> (PageCount(n, size) - 1) * size < n
    decreases n
  {
    if n > size {
      PageCountRoundsUp(n - size, size);
      assert PageCount(n, size) * size == PageCount(n - size, size) * size + size;
      assert (PageCount(n, size) - 1) * size == (PageCount(n - size, size) - 1) * size + size;
    }
  }

  function CutAll(s: Service, a: Authorization, context: Context, v: View, offset: nat, size: nat): seq<Page>
    requires size >= 1
    decreases |v.nodes| - offset
  {
    [CutPage(s, a, context, v, offset, size)]
    + (if offset + size < |v.nodes| then CutAll(s, a, context, v, offset + size, size) else [])
  }

  /** The primary nodes of each page. */
  function Primaries(v: View, offset: nat, size: nat): seq<seq<Node>>
    requires size >= 1
    decreases |v.nodes| - offset
  {
    [Slice(v.nodes, offset, offset + size)]
    + (if offset + size < |v.nodes| then Primaries(v, offset + size, size) else [])
  }

  function Flatten<T>(parts: seq<seq<T>>): seq<T> {
    if parts == [] then [] else parts[0] + Flatten(parts[1..])
  }

  function AllEdges(pages: seq<Page>): seq<Edge> {
    if pages == [] then [] else pages[0].edges + AllEdges(pages[1..])
  }

  /** The edges of a view with both ends among its ordered nodes. */
  function ClosedEdges(v: View): seq<Edge> { EdgesFrom(v.edges, Ids(v.nodes), Ids(v.nodes)) }

  // ----- the run is the cuts -----

  lemma ViewCursorFree(stored: Graph, a: Authorization, q: Request, cursor: Option<string>, op: Operation)
    requires UniqueIds(stored)
    ensures Shown(stored, a, q, op) == Shown(stored, a, q.(cursor := cursor), op)
  {
    hide FilterGraph;
  }

  lemma CutPageCursor(s: Service, a: Authorization, context: Context, v: View, offset: nat, size: nat)
    ensures CutPage(s, a, context, v, offset, size).nextCursor
         == if offset + size < |v.nodes| then Some(Mint(s.signer, offset + size, context)) else None
  {
  }

  lemma CutAllStep(s: Service, a: Authorization, context: Context, v: View, offset: nat, size: nat)
    requires size >= 1
    ensures var page := CutPage(s, a, context, v, offset, size);
            && page.nextCursor
               == (if offset + size < |v.nodes| then Some(Mint(s.signer, offset + size, context)) else None)
            && page.edges == PageEdges(v, offset, size)
            && page.nodes == PageNodes(v, offset, size, a.isFull)
            && CutAll(s, a, context, v, offset, size)
               == [page] + (if offset + size < |v.nodes| then CutAll(s, a, context, v, offset + size, size) else [])
  {
    hide PageEdges, PageNodes, Mint;
  }

  lemma QueryServes(
    s: Service, stored: Graph, principal: string, q: Request, op: Operation, a: Authorization, offset: nat)
    requires UniqueIds(stored) && ArgumentsNonblank(op)
    requires Authorize(s.registry, principal, q.workspaceId, q.generationId) == Ok(a)
    requires Cursor.Offset(s.signer, q.cursor, MakeContext(s, principal, a, q, op)) == Ok(offset)
    ensures Query(s, Some(stored), principal, q, op)
         == Ok(CutPage(s, a, MakeContext(s, principal, a, q, op),
                       MakeView(Shown(stored, a, q, op), q.nodeLimit), offset, q.pageSize))
  {
    hide Shown, MakeView, CutPage, Authorize, Cursor.Offset;
  }

  lemma FollowStep(
    s: Service, stored: Option<Graph>, principal: string, q: Request, op: Operation, steps: nat, page: Page)
    requires stored.Some? ==> UniqueIds(stored.value)
    requires steps > 0 && Query(s, stored, principal, q, op) == Ok(page)
    ensures Follow(s, stored, principal, q, op, steps)
         == if page.nextCursor.None? then [page]
            else [page] + Follow(s, stored, principal, q.(cursor := page.nextCursor), op, steps - 1)
  {
    hide Query, UniqueIds;
  }

  lemma NextOffset(s: Service, principal: string, q: Request, op: Operation, a: Authorization, offset: nat)
    requires Sound(s.signer)
    ensures var context := MakeContext(s, principal, a, q, op);
            var q' := q.(cursor := Some(Mint(s.signer, offset, context)));
            MakeContext(s, principal, a, q', op) == context
            && Cursor.Offset(s.signer, q'.cursor, context) == Ok(offset)
  {
    hide Mint, Cursor.Offset;
    var context := MakeContext(s, principal, a, q, op);
    CursorRoundTrip(s.signer, offset, context, context);
  }

  lemma PageCountStep(n: nat, offset: nat, size: nat)
    requires size >= 1 && offset <= n
    ensures PageCount(n - offset, size) == if offset + size < n then 1 + PageCount(n - (offset + size), size) else 1
  {
    assert offset + size < n ==> n - offset - size == n - (offset + size);
  }

  /** Each request of the run is the next cut: the cursor carries the offset through the text and back. */
  lemma {:induction false} FollowIsCuts(
    s: Service, stored: Graph, principal: string, q: Request, op: Operation, a: Authorization, offset: nat, steps: nat)
    requires Sound(s.signer) && UniqueIds(stored) && q.pageSize >= 1 && ArgumentsNonblank(op)
    requires Authorize(s.registry, principal, q.workspaceId, q.generationId) == Ok(a)
    requires Cursor.Offset(s.signer, q.cursor, MakeContext(s, principal, a, q, op)) == Ok(offset)
    requires var v := MakeView(Shown(stored, a, q, op), q.nodeLimit);
             offset <= |v.nodes| && steps >= PageCount(|v.nodes| - offset, q.pageSize)
    ensures Follow(s, Some(stored), principal, q, op, steps)
         == CutAll(s, a, MakeContext(s, principal, a, q, op), MakeView(Shown(stored, a, q, op), q.nodeLimit),
                   offset, q.pageSize)
    decreases steps
  {
    hide *;
    var context := MakeContext(s, principal, a, q, op);
    var v := MakeView(Shown(stored, a, q, op), q.nodeLimit);
    var page := CutPage(s, a, context, v, offset, q.pageSize);
    PageCountStep(|v.nodes|, offset, q.pageSize);
    CutAllStep(s, a, context, v, offset, q.pageSize);
    QueryServes(s, stored, principal, q, op, a, offset);
    FollowStep(s, Some(stored), principal, q, op, steps, page);
    if offset + q.pageSize < |v.nodes| {
      ViewCursorFree(stored, a, q, page.nextCursor, op);
      NextOffset(s, principal, q, op, a, offset + q.pageSize);
      FollowIsCuts(s, stored, principal, q.(cursor := page.nextCursor), op, a, offset + q.pageSize, steps - 1);
    }
  }

  // ----- what the cuts deliver -----

  lemma {:induction false} CutAllLast(s: Service, a: Authorization, context: Context, v: View, offset: nat, size: nat)
    requires size >= 1 && offset <= |v.nodes|
    ensures var pages := CutAll(s, a, context, v, offset, size);
            && |pages| == PageCount(|v.nodes| - offset, size) == |Primaries(v, offset, size)|
            && forall i :: 0 <= i < |pages| ==> (pages[i].nextCursor.None? <==> i == |pages| - 1)
    decreases |v.nodes| - offset
  {
    CutPageCursor(s, a, context, v, offset, size);
    hide CutPage;
    if offset + size < |v.nodes| {
      CutAllLast(s, a, context, v, offset + size, size);
      var rest := CutAll(s, a, context, v, offset + size, size);
      var pages := CutAll(s, a, context, v, offset, size);
      assert pages == [pages[0]] + rest;
    }
  }

  lemma {:induction false} PrimariesPartition(v: View, offset: nat, size: nat)
    requires size >= 1 && offset <= |v.nodes|
    ensures Flatten(Primaries(v, offset, size)) == v.nodes[offset..]
    decreases |v.nodes| - offset
  {
    hide *;
    var head := Slice(v.nodes, offset, offset + size);
    PrimariesStep(v, offset, size);
    SliceSplit(v.nodes, offset, size);
    if offset + size < |v.nodes| {
      PrimariesPartition(v, offset + size, size);
      FlattenCons(head, Primaries(v, offset + size, size));
      assert v.nodes[offset..] == v.nodes[offset..][..size] + v.nodes[offset..][size..];
    } else {
      FlattenCons(head, []);
    }
  }

  lemma PrimariesStep(v: View, offset: nat, size: nat)
    requires size >= 1
    ensures Primaries(v, offset, size)
         == [Slice(v.nodes, offset, offset + size)]
            + (if offset + size < |v.nodes| then Primaries(v, offset + size, size) else [])
  {
  }

  lemma FlattenCons(part: seq<Node>, parts: seq<seq<Node>>)
    ensures Flatten([part] + parts) == part + Flatten(parts) && Flatten<Node>([]) == []
  {
    assert ([part] + parts)[1..] == parts;
  }

  /** Each page shows its primary nodes, as the sanitizer leaves them. */
  lemma {:induction false} PrimariesShown(
    s: Service, a: Authorization, context: Context, v: View, offset: nat, size: nat, i: nat, n: Node)
    requires size >= 1 && offset <= |v.nodes|
    requires i < |Primaries(v, offset, size)| == |CutAll(s, a, context, v, offset, size)|
    requires n in Primaries(v, offset, size)[i]
    ensures var page := CutAll(s, a, context, v, offset, size)[i];
            SanitizeNode(n, Ids(page.nodes), a.isFull) in page.nodes
    decreases |v.nodes| - offset
  {
    hide CutPage;
    if i == 0 {
      PageShowsPrimary(s, a, context, v, offset, size, n);
    } else {
      assert CutAll(s, a, context, v, offset, size)[1..] == CutAll(s, a, context, v, offset + size, size);
      assert Primaries(v, offset, size)[1..] == Primaries(v, offset + size, size);
      PrimariesShown(s, a, context, v, offset + size, size, i - 1, n);
    }
  }

  lemma PageShowsPrimary(s: Service, a: Authorization, context: Context, v: View, offset: nat, size: nat, n: Node)
    requires n in Slice(v.nodes, offset, offset + size)
    ensures var page := CutPage(s, a, context, v, offset, size);
            SanitizeNode(n, Ids(page.nodes), a.isFull) in page.nodes
  {
    PageIdsAre(v, offset, size, a.isFull);
    hide EdgesFrom, Mint, SanitizeNode;
    var ids := PageIds(v, offset, size);
    var kept := NodesWithin(v.nodes, ids);
    assert n in v.nodes && n.id in ids;
    var k :| 0 <= k < |kept| && kept[k] == n;
    assert PageNodes(v, offset, size, a.isFull)[k] == SanitizeNode(n, ids, a.isFull);
  }

  /** The ids of a page's nodes are its primary ids and the ends of its edges. */
  lemma PageIdsAre(v: View, offset: nat, size: nat, semanticTargets: bool)
    ensures Ids(PageNodes(v, offset, size, semanticTargets)) == PageIds(v, offset, size)
  {
    var ids := PageIds(v, offset, size);
    assert ids <= Ids(v.nodes);
    hide *;
    PageNodesAre(v, offset, size, semanticTargets);
    WithinIds(v.nodes, ids);
    SanitizedIds(NodesWithin(v.nodes, ids), ids, semanticTargets);
  }

  lemma PageNodesAre(v: View, offset: nat, size: nat, semanticTargets: bool)
    ensures var ids := PageIds(v, offset, size);
            PageNodes(v, offset, size, semanticTargets) == SanitizeAll(NodesWithin(v.nodes, ids), ids, semanticTargets)
  {
  }

  lemma SanitizedIds(nodes: seq<Node>, ids: set<string>, semanticTargets: bool)
    ensures Ids(SanitizeAll(nodes, ids, semanticTargets)) == Ids(nodes)
  {
    var shown := SanitizeAll(nodes, ids, semanticTargets);
    forall n | n in nodes ensures n.id in Ids(shown) {
      var k :| 0 <= k < |nodes| && nodes[k] == n;
      assert shown[k].id == n.id;
    }
    forall n | n in shown ensures n.id in Ids(nodes) {
      var k :| 0 <= k < |shown| && shown[k] == n;
      assert nodes[k].id == n.id;
    }
  }

  lemma {:induction false} EdgesSplit(edges: seq<Edge>, a: set<string>, b: set<string>, ordered: set<string>)
    requires a !! b
    ensures multiset(EdgesFrom(edges, a + b, ordered))
         == multiset(EdgesFrom(edges, a, ordered)) + multiset(EdgesFrom(edges, b, ordered))
  {
    if edges != [] {
      EdgesSplit(edges[1..], a, b, ordered);
      assert edges == [edges[0]] + edges[1..];
    }
  }

  lemma IdsSplit(nodes: seq<Node>, offset: nat, size: nat)
    requires UniqueNodes(nodes) && offset + size <= |nodes|
    ensures var rest := nodes[offset..];
            Ids(rest) == Ids(rest[..size]) + Ids(rest[size..]) && Ids(rest[..size]) !! Ids(rest[size..])
  {
    var rest := nodes[offset..];
    assert rest == rest[..size] + rest[size..];
    assert forall i, j :: 0 <= i < size && 0 <= j < |rest| - size ==> rest[..size][i].id != rest[size..][j].id;
  }

  /** The pages from an offset on deliver exactly the closed edges whose source is not yet served. */
  lemma {:induction false} CutAllEdges(s: Service, a: Authorization, context: Context, v: View, offset: nat, size: nat)
    requires size >= 1 && offset <= |v.nodes| && UniqueNodes(v.nodes)
    ensures multiset(AllEdges(CutAll(s, a, context, v, offset, size)))
         == multiset(EdgesFrom(v.edges, Ids(v.nodes[offset..]), Ids(v.nodes)))
    decreases |v.nodes| - offset
  {
    hide *;
    CutAllStep(s, a, context, v, offset, size);
    SliceSplit(v.nodes, offset, size);
    var page := CutPage(s, a, context, v, offset, size);
    var rest := v.nodes[offset..];
    if offset + size < |v.nodes| {
      CutAllEdges(s, a, context, v, offset + size, size);
      AllEdgesCons(page, CutAll(s, a, context, v, offset + size, size));
      IdsSplit(v.nodes, offset, size);
      EdgesSplit(v.edges, Ids(rest[..size]), Ids(rest[size..]), Ids(v.nodes));
    } else {
      AllEdgesCons(page, []);
    }
    PageEdgesAre(v, offset, size);
  }

  lemma AllEdgesCons(page: Page, pages: seq<Page>)
    ensures AllEdges([page] + pages) == page.edges + AllEdges(pages)
    ensures AllEdges([]) == []
  {
    assert ([page] + pages)[1..] == pages;
  }

  lemma PageEdgesAre(v: View, offset: nat, size: nat)
    ensures PageEdges(v, offset, size)
         == EdgesFrom(v.edges, Ids(Slice(v.nodes, offset, offset + size)), Ids(v.nodes))
  {
  }

  lemma SliceSplit(nodes: seq<Node>, offset: nat, size: nat)
    requires offset <= |nodes|
    ensures var rest := nodes[offset..];
            if offset + size < |nodes| then
              rest[..size] == Slice(nodes, offset, offset + size) && rest[size..] == nodes[offset + size..]
            else Slice(nodes, offset, offset + size) == rest
  {
  }

  // ----- the theorems -----

  lemma PublicUnique(g: Graph)
    requires UniqueIds(g)
    ensures UniqueNodes(References.PublicNodes(g.nodes)) && UniqueEdges(References.PublicEdges(g.edges))
  {
  }

  lemma {:induction false} NarrowUnique(op: Operation, q: Request, g: Graph)
    requires UniqueIds(g) && q.nodeLimit >= 1 && q.depth >= 1
    ensures UniqueIds(Narrow(op, q, g))
  {
    var nodes := SelectNodes(op, g.nodes);
    SelectUnique(op, g.nodes);
    var r := Relate(op, q, Graph(nodes, g.edges));
    RelateUnique(op, q, Graph(nodes, g.edges));
    if RelationTypes(op) != {} {
      FilterUniqueEdges(r.edges, (e: Edge) => HasTextIn(e.props, "relation_type", RelationTypes(op)));
      var edges := Filter(r.edges, (e: Edge) => HasTextIn(e.props, "relation_type", RelationTypes(op)));
      WithinUnique(r.nodes, EndIds(edges));
    }
  }

  lemma WithinUnique(nodes: seq<Node>, ids: set<string>)
    requires UniqueNodes(nodes)
    ensures UniqueNodes(NodesWithin(nodes, ids))
  {
    FilterUniqueNodes(nodes, (n: Node) => n.id in ids);
  }

  lemma SelectUnique(op: Operation, nodes: seq<Node>)
    requires UniqueNodes(nodes)
    ensures UniqueNodes(SelectNodes(op, nodes))
  {
    var typed := if NodeTypes(op) == {} then nodes
                 else Filter(nodes, (n: Node) => HasTextIn(n.props, "node_type", NodeTypes(op)));
    FilterUniqueNodes(nodes, (n: Node) => HasTextIn(n.props, "node_type", NodeTypes(op)));
    if EndpointKey(op).Some? {
      FilterUniqueNodes(typed, (n: Node) => HasText(n.props, "canonical_key", EndpointKey(op).value)
                                            && HasText(n.props, "role", Role(op).value));
    }
  }

  lemma RelateUnique(op: Operation, q: Request, g: Graph)
    requires UniqueIds(g) && q.nodeLimit >= 1 && q.depth >= 1
    ensures UniqueIds(Relate(op, q, g))
  {
    match op
    case EndpointMethods(id) =>
      var byId := ById(g.nodes);
      if id in byId && HasText(byId[id].props, "node_type", "Endpoint") {
        var s := EN.Grow(g.nodes, g.edges, id, EN.Tokens(byId[id]));
        WithinUnique(g.nodes, s);
        FilterUniqueEdges(g.edges, (e: Edge) => e.source in s && e.target in s);
      }
    case Dependencies(id) => TraverseUnique(g, id, q.depth, q.nodeLimit, false);
    case Impact(id) => TraverseUnique(g, id, q.depth, q.nodeLimit, true);
    case Evidence(id) => AttachedUnique(g, id);
    case BuildTask(id) => AttachedUnique(g, id);
    case _ =>
  }

  lemma AttachedUnique(g: Graph, id: string)
    requires UniqueIds(g)
    ensures UniqueIds(Attached(g, id))
  {
    FilterUniqueEdges(g.edges, (e: Edge) => id == e.source || id == e.target || id == e.id);
    WithinUnique(g.nodes, {id} + EndIds(Attached(g, id).edges));
  }

  lemma TraverseUnique(g: Graph, root: string, depth: nat, limit: nat, reverse: bool)
    requires UniqueIds(g) && depth >= 1 && limit >= 1
    ensures UniqueIds(Traverse(g.nodes, g.edges, root, depth, limit, reverse))
  {
    if root in Ids(g.nodes) {
      TraversalEdges(g.nodes, g.edges, root, depth, limit, reverse);
      var dg, s, level := Drained(g.nodes, g.edges, root, depth, limit, reverse);
      WithinUnique(g.nodes, s.dist.Keys);
    }
  }

  lemma ViewUnique(stored: Graph, a: Authorization, q: Request, op: Operation)
    requires UniqueIds(stored) && ValidRequest(q)
    ensures var v := MakeView(Shown(stored, a, q, op), q.nodeLimit); UniqueNodes(v.nodes) && UniqueEdges(v.edges)
  {
    FilterGraphUnique(stored, a.repoIds, q.repoId);
    assert q.nodeLimit >= 1 && q.depth >= 1;
    var g := FilterGraph(stored, a.repoIds, q.repoId);
    assert Shown(stored, a, q, op) == Narrow(op, q, g);
    hide *;
    NarrowUnique(op, q, g);
    MakeViewUnique(Narrow(op, q, g), q.nodeLimit);
  }

  lemma MakeViewUnique(g: Graph, limit: nat)
    requires UniqueIds(g)
    ensures UniqueNodes(MakeView(g, limit).nodes) && UniqueEdges(MakeView(g, limit).edges)
  {
    PublicUnique(g);
    SortNodesUnique(References.PublicNodes(g.nodes));
    SortEdgesUnique(References.PublicEdges(g.edges));
  }

  lemma FirstPage(s: Service, stored: Graph, principal: string, q: Request, op: Operation)
    requires UniqueIds(stored) && q.cursor.None? && Query(s, Some(stored), principal, q, op).Ok?
    ensures Authorize(s.registry, principal, q.workspaceId, q.generationId).Ok? && ArgumentsNonblank(op)
    ensures var a := Authorize(s.registry, principal, q.workspaceId, q.generationId).value;
            Cursor.Offset(s.signer, q.cursor, MakeContext(s, principal, a, q, op)) == Ok(0)
  {
    hide Authorize, MakeContext, CutPage, MakeView, Shown;
  }

  lemma ClosedAre(v: View)
    ensures ClosedEdges(v) == EdgesFrom(v.edges, Ids(v.nodes), Ids(v.nodes))
  {
  }

  lemma Bounds(q: Request)
    requires ValidRequest(q)
    ensures q.depth >= 1 && q.nodeLimit >= 1 && q.pageSize >= 1
  {
  }

  /** The pages show every ordered node as primary exactly once and deliver every closed edge exactly once. */
  ghost predicate Lossless(v: View, size: nat, semanticTargets: bool, pages: seq<Page>)
    requires size >= 1
  {
    var primaries := Primaries(v, 0, size);
    && |pages| == |primaries| == PageCount(|v.nodes|, size)
    && (forall i :: 0 <= i < |pages| ==> (pages[i].nextCursor.None? <==> i == |pages| - 1))
    && Flatten(primaries) == v.nodes
    && (forall i, n :: 0 <= i < |pages| && n in primaries[i] ==>
          SanitizeNode(n, Ids(pages[i].nodes), semanticTargets) in pages[i].nodes)
    && multiset(AllEdges(pages)) == multiset(ClosedEdges(v))
  }

  lemma CutAllLossless(s: Service, a: Authorization, context: Context, v: View, size: nat)
    requires size >= 1 && UniqueNodes(v.nodes)
    ensures Lossless(v, size, a.isFull, CutAll(s, a, context, v, 0, size))
  {
    hide CutAll, Primaries, PageCount, Flatten, AllEdges, ClosedEdges, SanitizeNode, EdgesFrom, UniqueNodes;
    var pages, primaries := CutAll(s, a, context, v, 0, size), Primaries(v, 0, size);
    assert v.nodes[0..] == v.nodes && |v.nodes| - 0 == |v.nodes|;
    CutAllLast(s, a, context, v, 0, size);
    PrimariesPartition(v, 0, size);
    CutAllEdges(s, a, context, v, 0, size);
    ClosedAre(v);
    forall i, n | 0 <= i < |pages| && n in primaries[i]
      ensures SanitizeNode(n, Ids(pages[i].nodes), a.isFull) in pages[i].nodes
    {
      PrimariesShown(s, a, context, v, 0, size, i, n);
    }
  }

  /**
   A run from the first page ends after ceil(n / page_size) pages (one if n is 0), makes every
   ordered node primary exactly once, and delivers every closed edge exactly once.
   */
  lemma CursorRunLossless(s: Service, stored: Graph, principal: string, q: Request, op: Operation, steps: nat)
    requires Sound(s.signer) && UniqueIds(stored) && ValidRequest(q) && q.cursor.None?
    requires Query(s, Some(stored), principal, q, op).Ok?
    requires var a := Authorize(s.registry, principal, q.workspaceId, q.generationId).value;
             steps >= PageCount(|MakeView(Shown(stored, a, q, op), q.nodeLimit).nodes|, q.pageSize)
    ensures var a := Authorize(s.registry, principal, q.workspaceId, q.generationId).value;
            var v := MakeView(Shown(stored, a, q, op), q.nodeLimit);
            && UniqueNodes(v.nodes) && UniqueEdges(v.edges)
            && Lossless(v, q.pageSize, a.isFull, Follow(s, Some(stored), principal, q, op, steps))
  {
    hide *;
    Bounds(q);
    FirstPage(s, stored, principal, q, op);
    var a := Authorize(s.registry, principal, q.workspaceId, q.generationId).value;
    ViewUnique(stored, a, q, op);
    FollowIsCuts(s, stored, principal, q, op, a, 0, steps);
    var v := MakeView(Shown(stored, a, q, op), q.nodeLimit);
    CutAllLossless(s, a, MakeContext(s, principal, a, q, op), v, q.pageSize);
  }

  lemma LosslessMeans(v: View, size: nat, semanticTargets: bool, pages: seq<Page>)
    requires size >= 1 && Lossless(v, size, semanticTargets, pages)
    ensures Flatten(Primaries(v, 0, size)) == v.nodes && multiset(AllEdges(pages)) == multiset(ClosedEdges(v))
  {
    hide Primaries, PageCount, Flatten, AllEdges, ClosedEdges, SanitizeNode;
  }

  // ----- dependencies and impact deliver the whole traversal -----

  lemma IdsCount(nodes: seq<Node>)
    requires UniqueNodes(nodes)
    ensures |Ids(nodes)| == |nodes|
  {
    if nodes != [] {
      IdsCount(nodes[1..]);
      assert nodes == [nodes[0]] + nodes[1..];
      assert nodes[0].id !in Ids(nodes[1..]);
      assert Ids(nodes) == {nodes[0].id} + Ids(nodes[1..]);
    }
  }

  lemma {:induction false} EdgesFromAll(edges: seq<Edge>, ids: set<string>)
    requires forall e :: e in edges ==> e.source in ids && e.target in ids
    ensures EdgesFrom(edges, ids, ids) == edges
  {
    if edges != [] {
      assert edges == [edges[0]] + edges[1..];
      EdgesFromAll(edges[1..], ids);
    }
  }

  /** The node limit of the page code removes nothing from a traversal, and every traversed edge is closed. */
  lemma TraversalNotCut(g: Graph, root: string, depth: nat, limit: nat, reverse: bool)
    requires UniqueIds(g) && depth >= 1 && limit >= 1
    ensures var t := Traverse(g.nodes, g.edges, root, depth, limit, reverse);
            var v := MakeView(t, limit);
            && v.nodes == Sort(References.PublicNodes(t.nodes), NodeLe)
            && ClosedEdges(v) == v.edges == Sort(References.PublicEdges(t.edges), EdgeLe)
  {
    var t := Traverse(g.nodes, g.edges, root, depth, limit, reverse);
    TraverseUnique(g, root, depth, limit, reverse);
    IdsCount(t.nodes);
    if root in Ids(g.nodes) {
      TraversalNodes(g.nodes, g.edges, root, depth, limit, reverse);
      TraversalEdges(g.nodes, g.edges, root, depth, limit, reverse);
    }
    hide Traverse, Build, Ball, Reaches;
    ClosedNotCut(t, limit);
  }

  /** Nothing is cut off a graph within the limit. */
  lemma NotCut(t: Graph, limit: nat)
    requires |t.nodes| <= limit
    ensures MakeView(t, limit).nodes == Sort(References.PublicNodes(t.nodes), NodeLe)
    ensures MakeView(t, limit).edges == Sort(References.PublicEdges(t.edges), EdgeLe)
  {
    hide Sort;
  }

  lemma OrderedId(nodes: seq<Node>, id: string)
    requires id in Ids(nodes)
    ensures id in Ids(Sort(References.PublicNodes(nodes), NodeLe))
  {
    var ordered := References.PublicNodes(nodes);
    SortElements(ordered, NodeLe);
    hide Sort;
    var i :| 0 <= i < |nodes| && nodes[i].id == id;
    assert ordered[i] in ordered && ordered[i].id == id;
  }

  lemma OrderedEdge(edges: seq<Edge>, e: Edge) returns (stored: Edge)
    requires e in Sort(References.PublicEdges(edges), EdgeLe)
    ensures stored in edges && e.source == stored.source && e.target == stored.target
  {
    var ordered := References.PublicEdges(edges);
    SortElements(ordered, EdgeLe);
    hide Sort;
    var i :| 0 <= i < |ordered| && ordered[i] == e;
    stored := edges[i];
  }

  lemma ClosedNotCut(t: Graph, limit: nat)
    requires |t.nodes| <= limit && forall e :: e in t.edges ==> e.source in Ids(t.nodes) && e.target in Ids(t.nodes)
    ensures var v := MakeView(t, limit);
            && v.nodes == Sort(References.PublicNodes(t.nodes), NodeLe)
            && ClosedEdges(v) == v.edges == Sort(References.PublicEdges(t.edges), EdgeLe)
  {
    hide *;
    var v := MakeView(t, limit);
    NotCut(t, limit);
    forall e | e in v.edges ensures e.source in Ids(v.nodes) && e.target in Ids(v.nodes) {
      var stored := OrderedEdge(t.edges, e);
      OrderedId(t.nodes, e.source);
      OrderedId(t.nodes, e.target);
    }
    EdgesFromAll(v.edges, Ids(v.nodes));
    ClosedAre(v);
  }

  lemma TraversalShown(stored: Graph, a: Authorization, q: Request, op: Operation, root: string)
    requires UniqueIds(stored) && (op == Dependencies(root) || op == Impact(root))
    ensures var g := FilterGraph(stored, a.repoIds, q.repoId);
            && UniqueIds(g)
            && Shown(stored, a, q, op) == Traverse(g.nodes, g.edges, root, q.depth, q.nodeLimit, op.Impact?)
  {
    FilterGraphUnique(stored, a.repoIds, q.repoId);
    hide FilterGraph, Traverse;
  }

  /** A run of `dependencies` or `impact` delivers the whole traversal of the visible graph. */
  lemma TraversalRunWhole(
    s: Service, stored: Graph, principal: string, q: Request, op: Operation, root: string, steps: nat)
    requires Sound(s.signer) && UniqueIds(stored) && ValidRequest(q) && q.cursor.None?
    requires op == Dependencies(root) || op == Impact(root)
    requires Query(s, Some(stored), principal, q, op).Ok?
    requires var a := Authorize(s.registry, principal, q.workspaceId, q.generationId).value;
             steps >= PageCount(|MakeView(Shown(stored, a, q, op), q.nodeLimit).nodes|, q.pageSize)
    ensures var a := Authorize(s.registry, principal, q.workspaceId, q.generationId).value;
            var g := FilterGraph(stored, a.repoIds, q.repoId);
            UniqueEdges(g.edges)
    ensures var a := Authorize(s.registry, principal, q.workspaceId, q.generationId).value;
            var g := FilterGraph(stored, a.repoIds, q.repoId);
            var t := Traverse(g.nodes, g.edges, root, q.depth, q.nodeLimit, op.Impact?);
            var v := MakeView(Shown(stored, a, q, op), q.nodeLimit);
            && Flatten(Primaries(v, 0, q.pageSize)) == Sort(References.PublicNodes(t.nodes), NodeLe)
            && multiset(AllEdges(Follow(s, Some(stored), principal, q, op, steps)))
               == multiset(References.PublicEdges(t.edges))
  {
    hide *;
    Bounds(q);
    FirstPage(s, stored, principal, q, op);
    var a := Authorize(s.registry, principal, q.workspaceId, q.generationId).value;
    FilterGraphUnique(stored, a.repoIds, q.repoId);
    var g := FilterGraph(stored, a.repoIds, q.repoId);
    TraversalShown(stored, a, q, op, root);
    CursorRunLossless(s, stored, principal, q, op, steps);
    LosslessMeans(MakeView(Shown(stored, a, q, op), q.nodeLimit), q.pageSize, a.isFull,
                  Follow(s, Some(stored), principal, q, op, steps));
    TraversalNotCut(g, root, q.depth, q.nodeLimit, op.Impact?);
  }
}
