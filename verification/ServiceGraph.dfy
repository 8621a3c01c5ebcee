/** Stored graph records and the repository filter every query applies first. */
module ServiceGraph {
  import opened Collections
  import opened Ordering
  import opened Wrappers

  /** A property value: a string, a list or tuple (of the items' string forms), or anything else. */
  datatype Value = Text(text: string) | Items(items: seq<string>) | Opaque

  type Props = map<string, Value>

  datatype Node = Node(id: string, props: Props)

  /** `repoIds` is present when the record's `repo_ids` is a tuple of strings. */
  datatype Edge = Edge(id: string, source: string, target: string, repoIds: Option<seq<string>>, props: Props)

  datatype Graph = Graph(nodes: seq<Node>, edges: seq<Edge>)

  predicate NodeLe(a: Node, b: Node) { StrLe(a.id, b.id) }

  predicate EdgeLe(a: Edge, b: Edge) { StrLe(a.id, b.id) }

  ghost predicate UniqueNodes(nodes: seq<Node>) {
    forall i, j :: 0 <= i < j < |nodes| ==> nodes[i].id != nodes[j].id
  }

  ghost predicate UniqueEdges(edges: seq<Edge>) {
    forall i, j :: 0 <= i < j < |edges| ==> edges[i].id != edges[j].id
  }

  ghost predicate UniqueIds(g: Graph) { UniqueNodes(g.nodes) && UniqueEdges(g.edges) }

  function Ids(nodes: seq<Node>): (r: set<string>)
  {
    set n | n in nodes :: n.id
  }

  function Lookup(p: Props, key: string): Option<Value> {
    if key in p then Some(p[key]) else None
  }

  predicate HasText(p: Props, key: string, text: string) {
    key in p && p[key] == Text(text)
  }

  function RepoOf(n: Node): Option<string> {
    var v := if "repo_id" in n.props then Some(n.props["repo_id"]) else Lookup(n.props, "repoId");
    if v.Some? && v.value.Text? then Some(v.value.text) else None
  }

  /** `{str(node["id"]): node for node in nodes}`: the last record of an id wins. */
  function ById(nodes: seq<Node>): (r: map<string, Node>)
    ensures r.Keys == Ids(nodes)
    ensures forall id :: id in r ==> r[id] in nodes && r[id].id == id
  {
    if nodes == [] then map[]
    else
      var last := nodes[|nodes| - 1];
      assert nodes == nodes[..|nodes| - 1] + [last];
      ById(nodes[..|nodes| - 1])[last.id := last]
  }

  function RepoOfId(id: string, byId: map<string, Node>): seq<string> {
    if id in byId && RepoOf(byId[id]).Some? then [RepoOf(byId[id]).value] else []
  }

  function EdgeRepos(e: Edge, byId: map<string, Node>): seq<string> {
    if e.repoIds.Some? then e.repoIds.value
    else RepoOfId(e.source, byId) + RepoOfId(e.target, byId)
  }

  predicate NodeAllowed(n: Node, allowed: set<string>) {
    RepoOf(n).Some? && RepoOf(n).value in allowed
  }

  predicate EdgeAllowed(e: Edge, byId: map<string, Node>, allowed: set<string>) {
    forall r :: r in EdgeRepos(e, byId) ==> r in allowed
  }

  function VisibleNodes(nodes: seq<Node>, allowed: set<string>): seq<Node> {
    Filter(nodes, (n: Node) => NodeAllowed(n, allowed))
  }

  function VisibleEdges(edges: seq<Edge>, byId: map<string, Node>, allowed: set<string>): seq<Edge> {
    Filter(edges, (e: Edge) => EdgeAllowed(e, byId, allowed))
  }

  function EndIds(edges: seq<Edge>): (r: set<string>)
    ensures forall e :: e in edges ==> e.source in r && e.target in r
  {
    (set e | e in edges :: e.source) + (set e | e in edges :: e.target)
  }

  function NodesWithin(nodes: seq<Node>, ids: set<string>): seq<Node> {
    Filter(nodes, (n: Node) => n.id in ids)
  }

  function FilterGraph(g: Graph, allowed: set<string>, repoFilter: Option<string>): Graph {
    var visible := VisibleNodes(g.nodes, allowed);
    var byId := ById(visible);
    var edges := VisibleEdges(g.edges, byId, allowed);
    if repoFilter.None? then Graph(visible, edges)
    else if repoFilter.value !in allowed then Graph([], [])
    else
      var matching := Filter(edges, (e: Edge) => repoFilter.value in EdgeRepos(e, byId));
      var own := Filter(visible, (n: Node) => RepoOf(n) == repoFilter);
      Graph(NodesWithin(visible, EndIds(matching) + Ids(own)), matching)
  }

  /**
   The repository filters cover the unfiltered view and add nothing to it: a node is seen without a
   filter exactly when some authorized filter shows it, an edge likewise when it names a repository,
   and an unauthorized filter shows nothing.
   */
  lemma RepoFiltersCover(g: Graph, allowed: set<string>)
    ensures var whole := FilterGraph(g, allowed, None);
            && (forall n :: n in whole.nodes
                  <==> exists r :: r in allowed && n in FilterGraph(g, allowed, Some(r)).nodes)
            && (forall e :: e in whole.edges && EdgeRepos(e, ById(whole.nodes)) != []
                  <==> exists r :: r in allowed && e in FilterGraph(g, allowed, Some(r)).edges)
            && (forall r :: r !in allowed ==> FilterGraph(g, allowed, Some(r)) == Graph([], []))
  {
    var whole := FilterGraph(g, allowed, None);
    forall n | n in whole.nodes ensures exists r :: r in allowed && n in FilterGraph(g, allowed, Some(r)).nodes {
      assert n in FilterGraph(g, allowed, Some(RepoOf(n).value)).nodes;
    }
    forall e | e in whole.edges && EdgeRepos(e, ById(whole.nodes)) != []
      ensures exists r :: r in allowed && e in FilterGraph(g, allowed, Some(r)).edges
    {
      var r := EdgeRepos(e, ById(whole.nodes))[0];
      assert r in EdgeRepos(e, ById(whole.nodes));
      assert e in FilterGraph(g, allowed, Some(r)).edges;
    }
  }

  /** The record's own repository: `repo_id` where that key is present, else `repoId`, and only as a text. */
  ghost predicate LiesIn(n: Node, repo: string) {
    if "repo_id" in n.props then n.props["repo_id"] == Text(repo)
    else "repoId" in n.props && n.props["repoId"] == Text(repo)
  }

  ghost predicate Seen(g: Graph, allowed: set<string>, n: Node) {
    n in g.nodes && exists repo :: repo in allowed && LiesIn(n, repo)
  }

  /** An edge names its own list of repositories or, without one, those of the ends that are seen. */
  ghost predicate Names(g: Graph, allowed: set<string>, e: Edge, repo: string) {
    if e.repoIds.Some? then repo in e.repoIds.value
    else exists n :: Seen(g, allowed, n) && (n.id == e.source || n.id == e.target) && LiesIn(n, repo)
  }

  ghost predicate EdgeSeen(g: Graph, allowed: set<string>, e: Edge) {
    e in g.edges && forall repo :: Names(g, allowed, e, repo) ==> repo in allowed
  }

  /**
   What is shown, record by record. Without a filter: the nodes of an authorized repository and the
   edges that name only authorized ones. Under an authorized filter: the edges among these that name
   it, and the nodes among these that lie in it or are an end of such an edge.
   */
  lemma FilterExact(g: Graph, allowed: set<string>)
    requires UniqueNodes(g.nodes)
    ensures forall n :: n in FilterGraph(g, allowed, None).nodes <==> Seen(g, allowed, n)
    ensures forall e :: e in FilterGraph(g, allowed, None).edges <==> EdgeSeen(g, allowed, e)
    ensures forall repo, e :: repo in allowed ==>
              (e in FilterGraph(g, allowed, Some(repo)).edges
               <==> EdgeSeen(g, allowed, e) && Names(g, allowed, e, repo))
    ensures forall repo, n :: repo in allowed ==>
              (n in FilterGraph(g, allowed, Some(repo)).nodes
               <==> && Seen(g, allowed, n)
                    && (LiesIn(n, repo) || exists e :: e in FilterGraph(g, allowed, Some(repo)).edges
                                                       && (n.id == e.source || n.id == e.target)))
  {
    FilterUniqueNodes(g.nodes, (n: Node) => NodeAllowed(n, allowed));
    assert UniqueNodes(VisibleNodes(g.nodes, allowed));
    hide *;
    WholeShown(g, allowed);
    forall repo | repo in allowed {
      PartShown(g, allowed, repo);
    }
  }

  // ----- facts about records -----

  lemma RepoIs(n: Node, repo: string)
    ensures RepoOf(n) == Some(repo) <==> LiesIn(n, repo)
  {
  }

  lemma NodesSeen(g: Graph, allowed: set<string>)
    ensures forall n :: n in VisibleNodes(g.nodes, allowed) <==> Seen(g, allowed, n)
  {
    forall n ensures NodeAllowed(n, allowed) <==> exists repo :: repo in allowed && LiesIn(n, repo) {
      if NodeAllowed(n, allowed) {
        assert LiesIn(n, RepoOf(n).value);
      }
    }
  }

  lemma EndNamed(g: Graph, allowed: set<string>, id: string, repo: string)
    requires UniqueNodes(VisibleNodes(g.nodes, allowed))
    ensures repo in RepoOfId(id, ById(VisibleNodes(g.nodes, allowed)))
       <==> exists n :: Seen(g, allowed, n) && n.id == id && LiesIn(n, repo)
  {
    NodesSeen(g, allowed);
    var visible := VisibleNodes(g.nodes, allowed);
    hide VisibleNodes, Seen, LiesIn, RepoOf, ById;
    if id in ById(visible) {
      RepoIs(ById(visible)[id], repo);
    }
    if n :| Seen(g, allowed, n) && n.id == id && LiesIn(n, repo) {
      ByIdFinds(visible, n);
    }
  }

  lemma RepoNamed(g: Graph, allowed: set<string>, e: Edge, repo: string)
    requires UniqueNodes(VisibleNodes(g.nodes, allowed))
    ensures repo in EdgeRepos(e, ById(VisibleNodes(g.nodes, allowed))) <==> Names(g, allowed, e, repo)
  {
    EndNamed(g, allowed, e.source, repo);
    EndNamed(g, allowed, e.target, repo);
    hide VisibleNodes, Seen, LiesIn, RepoOfId, ById;
  }

  lemma EdgeShown(g: Graph, allowed: set<string>, e: Edge)
    requires UniqueNodes(VisibleNodes(g.nodes, allowed))
    ensures e in VisibleEdges(g.edges, ById(VisibleNodes(g.nodes, allowed)), allowed) <==> EdgeSeen(g, allowed, e)
  {
    hide Names, EdgeRepos, VisibleNodes, ById;
    forall repo ensures repo in EdgeRepos(e, ById(VisibleNodes(g.nodes, allowed))) <==> Names(g, allowed, e, repo) {
      RepoNamed(g, allowed, e, repo);
    }
  }

  lemma WholeShown(g: Graph, allowed: set<string>)
    requires UniqueNodes(VisibleNodes(g.nodes, allowed))
    ensures forall n :: n in FilterGraph(g, allowed, None).nodes <==> Seen(g, allowed, n)
    ensures forall e :: e in FilterGraph(g, allowed, None).edges <==> EdgeSeen(g, allowed, e)
  {
    NodesSeen(g, allowed);
    hide Seen, EdgeSeen, VisibleNodes, VisibleEdges;
    forall e ensures e in FilterGraph(g, allowed, None).edges <==> EdgeSeen(g, allowed, e) {
      EdgeShown(g, allowed, e);
    }
  }

  lemma PartShown(g: Graph, allowed: set<string>, repo: string)
    requires repo in allowed && UniqueNodes(VisibleNodes(g.nodes, allowed))
    ensures var r := FilterGraph(g, allowed, Some(repo));
            && (forall e :: e in r.edges <==> EdgeSeen(g, allowed, e) && Names(g, allowed, e, repo))
            && (forall n :: n in r.nodes
                  <==> && Seen(g, allowed, n)
                       && (LiesIn(n, repo) || exists e :: e in r.edges && (n.id == e.source || n.id == e.target)))
  {
    hide *;
    forall e ensures e in FilterGraph(g, allowed, Some(repo)).edges
                     <==> EdgeSeen(g, allowed, e) && Names(g, allowed, e, repo)
    {
      EdgeShown(g, allowed, e);
      RepoNamed(g, allowed, e, repo);
      MatchingEdges(g, allowed, repo, e);
    }
    forall n {
      NodeShown(g, allowed, repo, n);
    }
  }

  lemma MatchingEdges(g: Graph, allowed: set<string>, repo: string, e: Edge)
    requires repo in allowed
    ensures var byId := ById(VisibleNodes(g.nodes, allowed));
            e in FilterGraph(g, allowed, Some(repo)).edges
            <==> e in VisibleEdges(g.edges, byId, allowed) && repo in EdgeRepos(e, byId)
  {
    hide RepoOf, VisibleNodes, EdgeRepos, VisibleEdges, ById;
  }

  /** The nodes under a filter, told by what the filter computes. */
  lemma NodesKept(g: Graph, allowed: set<string>, repo: string, n: Node)
    requires repo in allowed
    ensures var r, visible := FilterGraph(g, allowed, Some(repo)), VisibleNodes(g.nodes, allowed);
            n in r.nodes
            <==> && n in visible
                 && ((exists m :: m in visible && RepoOf(m) == Some(repo) && m.id == n.id)
                     || exists e :: e in r.edges && (n.id == e.source || n.id == e.target))
  {
    hide RepoOf, VisibleNodes, EdgeRepos, VisibleEdges, ById;
  }

  lemma NodeShown(g: Graph, allowed: set<string>, repo: string, n: Node)
    requires repo in allowed && UniqueNodes(VisibleNodes(g.nodes, allowed))
    ensures var r := FilterGraph(g, allowed, Some(repo));
            n in r.nodes
            <==> && Seen(g, allowed, n)
                 && (LiesIn(n, repo) || exists e :: e in r.edges && (n.id == e.source || n.id == e.target))
  {
    NodesSeen(g, allowed);
    RepoIs(n, repo);
    NodesKept(g, allowed, repo, n);
    hide *;
    var visible := VisibleNodes(g.nodes, allowed);
    if m :| m in visible && RepoOf(m) == Some(repo) && m.id == n.id && n in visible {
      SameNode(visible, m, n);
    }
  }

  lemma WithinIds(nodes: seq<Node>, ids: set<string>)
    requires ids <= Ids(nodes)
    ensures Ids(NodesWithin(nodes, ids)) == ids
  {
    forall v | v in ids ensures v in Ids(NodesWithin(nodes, ids)) {
      var n :| n in nodes && n.id == v;
      assert n in NodesWithin(nodes, ids);
    }
  }

  lemma WithinMember(nodes: seq<Node>, ids: set<string>, n: Node)
    ensures n in NodesWithin(nodes, ids) <==> n in nodes && n.id in ids
    ensures Ids(NodesWithin(nodes, ids)) <= Ids(nodes)
  {
  }

  /** The last record of an id is the one found under it. */
  lemma {:induction false} ByIdLast(nodes: seq<Node>, i: nat)
    requires i < |nodes| && forall k :: i < k < |nodes| ==> nodes[k].id != nodes[i].id
    ensures nodes[i].id in ById(nodes) && ById(nodes)[nodes[i].id] == nodes[i]
  {
    var front := nodes[..|nodes| - 1];
    if i < |front| {
      assert forall k :: 0 <= k < |front| ==> front[k] == nodes[k];
      ByIdLast(front, i);
    }
  }

  lemma ByIdFinds(nodes: seq<Node>, n: Node)
    requires UniqueNodes(nodes) && n in nodes
    ensures n.id in ById(nodes) && ById(nodes)[n.id] == n
  {
    var i :| 0 <= i < |nodes| && nodes[i] == n;
    ByIdLast(nodes, i);
  }

  lemma ByIdSame(a: seq<Node>, b: seq<Node>)
    requires UniqueNodes(a) && UniqueNodes(b) && SameElements(a, b)
    ensures ById(a) == ById(b)
  {
    forall id ensures id in ById(a) <==> id in ById(b) {}
    forall id | id in ById(a) ensures ById(a)[id] == ById(b)[id] {
      ByIdFinds(b, ById(a)[id]);
    }
  }

  lemma {:induction false} FilterUniqueNodes(nodes: seq<Node>, p: Node -> bool)
    requires UniqueNodes(nodes)
    ensures UniqueNodes(Filter(nodes, p))
  {
    if nodes != [] {
      FilterUniqueNodes(nodes[1..], p);
      assert forall n :: n in nodes[1..] ==> n.id != nodes[0].id;
    }
  }

  lemma {:induction false} FilterUniqueEdges(edges: seq<Edge>, p: Edge -> bool)
    requires UniqueEdges(edges)
    ensures UniqueEdges(Filter(edges, p))
  {
    if edges != [] {
      FilterUniqueEdges(edges[1..], p);
      assert forall e :: e in edges[1..] ==> e.id != edges[0].id;
    }
  }

  /** Sorting records by unique ids depends only on which records there are. */
  lemma SortNodesSame(a: seq<Node>, b: seq<Node>)
    requires UniqueNodes(a) && UniqueNodes(b) && SameElements(a, b)
    ensures Sort(a, NodeLe) == Sort(b, NodeLe)
  {
    DistinctSameMultiset(a, b);
    StrLeIsOrder();
    SortSorted(a, NodeLe);
    SortSorted(b, NodeLe);
    SortElements(a, NodeLe);
    SortedUnique(Sort(a, NodeLe), Sort(b, NodeLe), NodeLe);
  }

  lemma SameEdge(edges: seq<Edge>, a: Edge, b: Edge)
    requires UniqueEdges(edges) && a in edges && b in edges && a.id == b.id
    ensures a == b
  {
    var i :| 0 <= i < |edges| && edges[i] == a;
    var j :| 0 <= j < |edges| && edges[j] == b;
    assert i == j;
  }

  lemma SortEdgesUnique(edges: seq<Edge>)
    requires UniqueEdges(edges)
    ensures UniqueEdges(Sort(edges, EdgeLe))
    ensures forall e :: e in Sort(edges, EdgeLe) <==> e in edges
  {
    var r := Sort(edges, EdgeLe);
    SortElements(edges, EdgeLe);
    MultisetDistinct(edges, r);
    forall i, j | 0 <= i < j < |r| ensures r[i].id != r[j].id {
      var a, b := r[i], r[j];
      assert a in edges && b in edges;
      if a.id == b.id { SameEdge(edges, a, b); }
    }
  }

  lemma SameNode(nodes: seq<Node>, a: Node, b: Node)
    requires UniqueNodes(nodes) && a in nodes && b in nodes && a.id == b.id
    ensures a == b
  {
    var i :| 0 <= i < |nodes| && nodes[i] == a;
    var j :| 0 <= j < |nodes| && nodes[j] == b;
    assert i == j;
  }

  lemma SortNodesUnique(nodes: seq<Node>)
    requires UniqueNodes(nodes)
    ensures UniqueNodes(Sort(nodes, NodeLe))
    ensures forall n :: n in Sort(nodes, NodeLe) <==> n in nodes
  {
    var r := Sort(nodes, NodeLe);
    SortElements(nodes, NodeLe);
    MultisetDistinct(nodes, r);
    forall i, j | 0 <= i < j < |r| ensures r[i].id != r[j].id {
      var a, b := r[i], r[j];
      assert a in nodes && b in nodes;
      if a.id == b.id { SameNode(nodes, a, b); }
    }
  }
}
