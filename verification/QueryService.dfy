/** One workspace graph query from authorization to the served page. */
module QueryService {
  import opened Authorization
  import opened Collections
  import opened Cursor
  import opened EndpointNeighborhood
  import opened Ordering
  import References
  import opened ServiceGraph
  import opened Texts
  import opened Traversal
  import opened Wrappers

  datatype Request = Request(
    workspaceId: string, generationId: Option<string>, repoId: Option<string>, pageSize: nat,
    cursor: Option<string>, depth: nat, nodeLimit: nat)

  ghost predicate OptionalText(t: Option<string>) { t.Some? ==> Nonblank(t.value) }

  /** What the request constructor accepts. */
  ghost predicate ValidRequest(q: Request) {
    && Nonblank(q.workspaceId) && OptionalText(q.generationId) && OptionalText(q.repoId) && OptionalText(q.cursor)
    && 1 <= q.pageSize <= 100 && 1 <= q.depth <= 8 && 1 <= q.nodeLimit <= 1000
  }

  datatype Operation =
    | ServiceDirectory
    | OperationDirectory
    | EndpointMethods(endpointId: string)
    | Providers(endpointKey: string)
    | Consumers(endpointKey: string)
    | Dependencies(nodeId: string)
    | Evidence(nodeId: string)
    | Unresolved
    | BuildTask(taskId: string)
    | Changes(fromGenerationId: string)
    | Impact(nodeId: string)

  datatype Visibility = FullView | FilteredView

  datatype Page = Page(
    workspaceId: string, generationId: string, visibility: Visibility,
    nodes: seq<Node>, edges: seq<Edge>, nextCursor: Option<string>)

  datatype QueryError = InvalidQuery | NotAuthorized(refusal: Refusal)

  /** The collaborators of the service. */
  datatype Service = Service(registry: Registry, signer: Signer, repoDigest: set<string> -> string)

  function Name(op: Operation): string {
    match op
    case ServiceDirectory => "service_directory"
    case OperationDirectory => "operation_directory"
    case EndpointMethods(_) => "endpoint_methods"
    case Providers(_) => "providers"
    case Consumers(_) => "consumers"
    case Dependencies(_) => "dependencies"
    case Evidence(_) => "evidence"
    case Unresolved => "unresolved"
    case BuildTask(_) => "build_task"
    case Changes(_) => "changes"
    case Impact(_) => "impact"
  }

  function EndpointKey(op: Operation): Option<string> {
    match op
    case Providers(key) => Some(key)
    case Consumers(key) => Some(key)
    case _ => None
  }

  function Role(op: Operation): Option<string> {
    match op
    case Providers(_) => Some("provider")
    case Consumers(_) => Some("consumer")
    case _ => None
  }

  function RelatedTo(op: Operation): Option<string> {
    match op
    case EndpointMethods(id) => Some(id)
    case Dependencies(id) => Some(id)
    case Evidence(id) => Some(id)
    case BuildTask(id) => Some(id)
    case Impact(id) => Some(id)
    case _ => None
  }

  function FromGeneration(op: Operation): Option<string> {
    if op.Changes? then Some(op.fromGenerationId) else None
  }

  function NodeTypes(op: Operation): set<string> {
    match op
    case OperationDirectory => {"ServiceOperation"}
    case Unresolved => {"MethodUnresolved"}
    case BuildTask(_) => {"BuildTask"}
    case _ => {}
  }

  function RelationTypes(op: Operation): set<string> {
    if op.Evidence? then {"SUPPORTED_BY_EVIDENCE", "METHOD_EVIDENCE"} else {}
  }

  predicate HasTextIn(p: Props, key: string, texts: set<string>) {
    key in p && p[key].Text? && p[key].text in texts
  }

  function MakeContext(s: Service, principal: string, a: Authorization, q: Request, op: Operation): Context {
    Context(principal, a.workspaceId, a.generationId, s.repoDigest(a.repoIds), Name(op), q.repoId, q.pageSize,
            q.depth, q.nodeLimit, EndpointKey(op), Role(op), RelatedTo(op), FromGeneration(op))
  }

  // ----- narrowing the visible graph to one operation -----

  /** The node-type and endpoint-key filters. */
  function SelectNodes(op: Operation, nodes: seq<Node>): seq<Node> {
    var typed := if NodeTypes(op) == {} then nodes
                 else Filter(nodes, (n: Node) => HasTextIn(n.props, "node_type", NodeTypes(op)));
    if EndpointKey(op).None? then typed
    else Filter(typed, (n: Node) => HasText(n.props, "canonical_key", EndpointKey(op).value)
                                    && HasText(n.props, "role", Role(op).value))
  }

  /** The records attached to one id. */
  function Attached(g: Graph, id: string): Graph {
    var edges := Filter(g.edges, (e: Edge) => id == e.source || id == e.target || id == e.id);
    Graph(NodesWithin(g.nodes, {id} + EndIds(edges)), edges)
  }

  function Relate(op: Operation, q: Request, g: Graph): Graph
    requires UniqueEdges(g.edges)
  {
    match op
    case EndpointMethods(id) => Neighborhood(g.nodes, g.edges, id)
    case Dependencies(id) => Traverse(g.nodes, g.edges, id, q.depth, q.nodeLimit, false)
    case Impact(id) => Traverse(g.nodes, g.edges, id, q.depth, q.nodeLimit, true)
    case Evidence(id) => Attached(g, id)
    case BuildTask(id) => Attached(g, id)
    case _ => g
  }

  function RestrictRelations(op: Operation, g: Graph): Graph {
    if RelationTypes(op) == {} then g
    else
      var edges := Filter(g.edges, (e: Edge) => HasTextIn(e.props, "relation_type", RelationTypes(op)));
      Graph(NodesWithin(g.nodes, EndIds(edges)), edges)
  }

  function Narrow(op: Operation, q: Request, g: Graph): Graph
    requires UniqueEdges(g.edges)
  {
    RestrictRelations(op, Relate(op, q, Graph(SelectNodes(op, g.nodes), g.edges)))
  }

  // ----- cutting pages -----

  /** The ordered nodes and edges a whole cursor run is cut from. */
  datatype View = View(nodes: seq<Node>, edges: seq<Edge>)

  function Cut<T>(s: seq<T>, limit: nat): seq<T> { if |s| <= limit then s else s[..limit] }

  /** Python's `s[lo:hi]`. */
  function Slice<T>(s: seq<T>, lo: nat, hi: nat): seq<T> {
    var h := if hi <= |s| then hi else |s|;
    if lo <= h then s[lo..h] else []
  }

  function MakeView(g: Graph, limit: nat): View {
    View(Cut(Sort(References.PublicNodes(g.nodes), NodeLe), limit), Sort(References.PublicEdges(g.edges), EdgeLe))
  }

  /** The edges between ordered nodes whose source is one of the given nodes. */
  function EdgesFrom(edges: seq<Edge>, sources: set<string>, ordered: set<string>): seq<Edge> {
    Filter(edges, (e: Edge) => e.source in sources && e.source in ordered && e.target in ordered)
  }

  function SanitizeNode(n: Node, ids: set<string>, semanticTargets: bool): Node {
    n.(props := References.Sanitize(n.props, ids, semanticTargets))
  }

  function SanitizeAll(nodes: seq<Node>, ids: set<string>, semanticTargets: bool): (r: seq<Node>)
    ensures |r| == |nodes| && forall i :: 0 <= i < |nodes| ==> r[i] == SanitizeNode(nodes[i], ids, semanticTargets)
  {
    if nodes == [] then []
    else [SanitizeNode(nodes[0], ids, semanticTargets)] + SanitizeAll(nodes[1..], ids, semanticTargets)
  }

  function PageEdges(v: View, offset: nat, size: nat): seq<Edge> {
    EdgesFrom(v.edges, Ids(Slice(v.nodes, offset, offset + size)), Ids(v.nodes))
  }

  function PageIds(v: View, offset: nat, size: nat): set<string> {
    Ids(Slice(v.nodes, offset, offset + size)) + EndIds(PageEdges(v, offset, size))
  }

  function PageNodes(v: View, offset: nat, size: nat, semanticTargets: bool): seq<Node> {
    var ids := PageIds(v, offset, size);
    SanitizeAll(NodesWithin(v.nodes, ids), ids, semanticTargets)
  }

  function CutPage(s: Service, a: Authorization, context: Context, v: View, offset: nat, size: nat): Page {
    Page(a.workspaceId, a.generationId, if a.isFull then FullView else FilteredView,
         PageNodes(v, offset, size, a.isFull), PageEdges(v, offset, size),
         if offset + size < |v.nodes| then Some(Mint(s.signer, offset + size, context)) else None)
  }

  // ----- the query -----

  predicate ArgumentsNonblank(op: Operation) {
    && (EndpointKey(op).Some? ==> Nonblank(EndpointKey(op).value))
    && (RelatedTo(op).Some? ==> Nonblank(RelatedTo(op).value))
    && (FromGeneration(op).Some? ==> Nonblank(FromGeneration(op).value))
  }

  lemma FilterGraphUnique(g: Graph, allowed: set<string>, repoFilter: Option<string>)
    requires UniqueIds(g)
    ensures UniqueIds(FilterGraph(g, allowed, repoFilter))
  {
    FilterUniqueNodes(g.nodes, (n: Node) => NodeAllowed(n, allowed));
    var visible := VisibleNodes(g.nodes, allowed);
    var byId := ById(visible);
    FilterUniqueEdges(g.edges, (e: Edge) => EdgeAllowed(e, byId, allowed));
    var edges := VisibleEdges(g.edges, byId, allowed);
    if repoFilter.Some? {
      FilterUniqueEdges(edges, (e: Edge) => repoFilter.value in EdgeRepos(e, byId));
      var matching := Filter(edges, (e: Edge) => repoFilter.value in EdgeRepos(e, byId));
      var own := Filter(visible, (n: Node) => RepoOf(n) == repoFilter);
      var ids := EndIds(matching) + Ids(own);
      FilterUniqueNodes(visible, (n: Node) => n.id in ids);
    }
  }

  /** The graph one operation leaves of what the caller may see. */
  function Shown(stored: Graph, a: Authorization, q: Request, op: Operation): Graph
    requires UniqueIds(stored)
  {
    FilterGraphUnique(stored, a.repoIds, q.repoId);
    Narrow(op, q, FilterGraph(stored, a.repoIds, q.repoId))
  }

  /** `stored` is the frozen graph of the authorized generation; absent when its read is not trusted. */
  function Query(
    s: Service, stored: Option<Graph>, principal: string, q: Request, op: Operation): Result<Page, QueryError>
    requires stored.Some? ==> UniqueIds(stored.value)
  {
    if !ArgumentsNonblank(op) then Err(InvalidQuery)
    else
      var authorized := Authorize(s.registry, principal, q.workspaceId, q.generationId);
      if authorized.Err? then Err(NotAuthorized(authorized.error))
      else
        var a := authorized.value;
        var context := MakeContext(s, principal, a, q, op);
        var offset := Offset(s.signer, q.cursor, context);
        if offset.Err? then Err(InvalidQuery)
        else if stored.None? then Err(NotAuthorized(Refused(Conflict)))
        else Ok(CutPage(s, a, context, MakeView(Shown(stored.value, a, q, op), q.nodeLimit), offset.value, q.pageSize))
  }
}
