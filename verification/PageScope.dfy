/** What a page may depend on and what it may show. */
module PageScope {
  import opened Authorization
  import Cursor
  import opened CursorRun
  import opened Ordering
  import opened QueryService
  import opened References
  import opened ServiceGraph
  import opened Traversal
  import opened Wrappers

  // ----- pages are closed and in scope -----

  lemma AttachedSubset(g: Graph, id: string)
    ensures forall n :: n in Attached(g, id).nodes ==> n in g.nodes
  {
  }

  lemma RelateSubset(op: Operation, q: Request, g: Graph)
    requires UniqueEdges(g.edges)
    ensures forall n :: n in Relate(op, q, g).nodes ==> n in g.nodes
  {
    hide Run, Build, SelectedEdges;
    match op
    case Evidence(id) => AttachedSubset(g, id);
    case BuildTask(id) => AttachedSubset(g, id);
    case _ =>
  }

  /** Every node an operation shows lies in an authorized repository. */
  lemma ShownAllowed(stored: Graph, a: Authorization, q: Request, op: Operation, n: Node)
    requires UniqueIds(stored) && n in Shown(stored, a, q, op).nodes
    ensures n in stored.nodes && NodeAllowed(n, a.repoIds)
  {
    FilterGraphUnique(stored, a.repoIds, q.repoId);
    var g := FilterGraph(stored, a.repoIds, q.repoId);
    assert forall m :: m in g.nodes ==> m in stored.nodes && NodeAllowed(m, a.repoIds);
    var h := Graph(SelectNodes(op, g.nodes), g.edges);
    assert forall m :: m in h.nodes ==> m in g.nodes;
    RelateSubset(op, q, h);
    hide Relate, SelectNodes, NodeAllowed, FilterGraph, UniqueIds, HasTextIn;
  }

  /** The repository keys are neither internal nor references. */
  lemma RepoKeys()
    ensures IsPublicKey("repo_id") && IsPublicKey("repoId")
    ensures "repo_id" !in References.REFERENCE_KEYS && "repoId" !in References.REFERENCE_KEYS
  {
    InternalKeyShapes();
    ReferenceKeyShapes();
    RepoKeyShapes();
    hide INTERNAL_KEYS, References.REFERENCE_KEYS;
  }

  lemma InternalKeyShapes()
    ensures forall k :: k in INTERNAL_KEYS ==> |k| != 7 && (|k| == 6 ==> k[0] == 'f')
  {
  }

  lemma ReferenceKeyShapes()
    ensures forall k :: k in References.REFERENCE_KEYS ==> |k| >= 10
  {
  }

  lemma RepoKeyShapes()
    ensures |"repo_id"| == 7 && |"repoId"| == 6 && "repoId"[0] == 'r' && "repo_id"[0] == 'r'
    ensures !("_" <= "repo_id") && !("_" <= "repoId")
  {
    assert "_"[0] == '_';
  }

  lemma RepoKept(n: Node, ids: set<string>, semanticTargets: bool)
    ensures RepoOf(SanitizeNode(PublicNode(n), ids, semanticTargets)) == RepoOf(n)
  {
    var p := PublicProps(n.props);
    RepoKeys();
    hide Cleaned, IsPublicKey;
    SanitizeLeaves(p, ids, semanticTargets, "repo_id");
    SanitizeLeaves(p, ids, semanticTargets, "repoId");
  }

  /** A page node is a shown node with internal keys dropped and references cut down to the page. */
  lemma PageNodeOrigin(
    stored: Graph, a: Authorization, q: Request, op: Operation, offset: nat, n: Node)
    returns (m: Node, ids: set<string>)
    requires UniqueIds(stored)
    requires n in PageNodes(MakeView(Shown(stored, a, q, op), q.nodeLimit), offset, q.pageSize, a.isFull)
    ensures var v := MakeView(Shown(stored, a, q, op), q.nodeLimit);
            ids == PageIds(v, offset, q.pageSize) == Ids(PageNodes(v, offset, q.pageSize, a.isFull))
    ensures m in Shown(stored, a, q, op).nodes && n == SanitizeNode(PublicNode(m), ids, a.isFull)
  {
    var g := Shown(stored, a, q, op);
    var v := MakeView(g, q.nodeLimit);
    PageIdsAre(v, offset, q.pageSize, a.isFull);
    PageNodesAre(v, offset, q.pageSize, a.isFull);
    ViewNodes(g, q.nodeLimit);
    hide *;
    ids := PageIds(v, offset, q.pageSize);
    var kept := NodesWithin(v.nodes, ids);
    var shown := SanitizeAll(kept, ids, a.isFull);
    var k :| 0 <= k < |shown| && shown[k] == n;
    m := KeptOrigin(g.nodes, v.nodes, ids, kept[k]);
  }

  lemma ViewNodes(g: Graph, limit: nat)
    ensures forall n :: n in MakeView(g, limit).nodes ==> n in PublicNodes(g.nodes)
  {
    SortElements(PublicNodes(g.nodes), NodeLe);
  }

  lemma KeptOrigin(nodes: seq<Node>, ordered: seq<Node>, ids: set<string>, k: Node) returns (m: Node)
    requires (forall n :: n in ordered ==> n in PublicNodes(nodes)) && k in NodesWithin(ordered, ids)
    ensures m in nodes && PublicNode(m) == k
  {
    var i :| 0 <= i < |nodes| && PublicNodes(nodes)[i] == k;
    m := nodes[i];
  }

  /**
   Both ends of a page edge are page nodes; every page node lies in a repository frozen in the
   authorized generation, and in the grant when that is filtered; every reference left on a
   page node names a page node, apart from semantic targets under full visibility.
   */
  lemma PageClosedInScope(s: Service, stored: Graph, principal: string, q: Request, op: Operation, page: Page)
    requires Trusted(s.registry) && UniqueIds(stored) && Query(s, Some(stored), principal, q, op) == Ok(page)
    ensures forall e :: e in page.edges ==> e.source in Ids(page.nodes) && e.target in Ids(page.nodes)
    ensures var generation := s.registry.generation(q.workspaceId, page.generationId);
            var grant := s.registry.grant(principal, q.workspaceId);
            && generation.Some? && generation.value.state == "active" && grant.Some?
            && forall n :: n in page.nodes ==>
                 && RepoOf(n).Some? && RepoOf(n).value in generation.value.repositoryIds
                 && (grant.value.scope.Filtered? ==> RepoOf(n).value in grant.value.repositoryIds)
                 && ReferencesWithin(n.props, Ids(page.nodes), grant.value.scope.Full?)
  {
    var a, offset := PageOf(s, stored, principal, q, op, page);
    AuthorizedScope(s.registry, principal, q.workspaceId, q.generationId);
    var v := MakeView(Shown(stored, a, q, op), q.nodeLimit);
    PageIdsAre(v, offset, q.pageSize, a.isFull);
    PageEdgesClosed(v, offset, q.pageSize);
    forall n | n in page.nodes
      ensures RepoOf(n).Some? && RepoOf(n).value in a.repoIds && ReferencesWithin(n.props, Ids(page.nodes), a.isFull)
    {
      hide *;
      var m, ids := PageNodeOrigin(stored, a, q, op, offset, n);
      ShownAllowed(stored, a, q, op, m);
      RepoKept(m, ids, a.isFull);
      AllowedMeans(m, a.repoIds);
      SanitizeExact(PublicNode(m).props, ids, a.isFull);
      SanitizeNodeProps(PublicNode(m), ids, a.isFull);
    }
    hide MakeView, PageNodes, PageEdges, Shown, Query, CutPage, ReferencesWithin, Authorize, RepoOf;
  }

  lemma AllowedMeans(n: Node, allowed: set<string>)
    requires NodeAllowed(n, allowed)
    ensures RepoOf(n).Some? && RepoOf(n).value in allowed
  {
  }

  lemma SanitizeNodeProps(n: Node, ids: set<string>, semanticTargets: bool)
    ensures SanitizeNode(n, ids, semanticTargets).props == Sanitize(n.props, ids, semanticTargets)
  {
  }

  lemma PageEdgesClosed(v: View, offset: nat, size: nat)
    ensures forall e :: e in PageEdges(v, offset, size) ==>
              e.source in PageIds(v, offset, size) && e.target in PageIds(v, offset, size)
  {
  }

  lemma PageOf(s: Service, stored: Graph, principal: string, q: Request, op: Operation, page: Page)
    returns (a: Authorization, offset: nat)
    requires UniqueIds(stored) && Query(s, Some(stored), principal, q, op) == Ok(page)
    ensures Authorize(s.registry, principal, q.workspaceId, q.generationId) == Ok(a)
    ensures var v := MakeView(Shown(stored, a, q, op), q.nodeLimit);
            && page.nodes == PageNodes(v, offset, q.pageSize, a.isFull)
            && page.edges == PageEdges(v, offset, q.pageSize)
            && page.generationId == a.generationId
  {
    hide Authorize, MakeContext, Shown, MakeView, PageNodes, PageEdges, Cursor.Mint;
    a := Authorize(s.registry, principal, q.workspaceId, q.generationId).value;
    offset := Cursor.Offset(s.signer, q.cursor, MakeContext(s, principal, a, q, op)).value;
  }
}
