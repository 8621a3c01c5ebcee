/** Module detection from the stored rows to the clusters. */
module ModuleClustering {
  import opened Collections
  import opened Communities
  import opened EntityGraph
  import opened LabelPropagation

  datatype Cluster = Cluster(entityIds: seq<string>, cohesion: real)

  const MAX_ITERATIONS: nat := 100

  function SizeOf(clusters: seq<Cluster>): nat {
    if clusters == [] then 0 else SizeOf(clusters[..|clusters| - 1]) + |clusters[|clusters| - 1].entityIds|
  }

  /** What a cluster must be: distinct connected entities, with the cohesion of their internal edges. */
  ghost predicate ClusterOk(adj: Adjacency, c: Cluster) {
    && c.entityIds != [] && Distinct(c.entityIds) && (forall id :: id in c.entityIds ==> id in adj)
    && (forall a, b :: a in c.entityIds && b in c.entityIds ==> Connected(adj, a, b))
    && 0.0 <= c.cohesion <= 1.0
    && (|c.entityIds| >= 2 ==>
          && (c.cohesion == 1.0 <==> Clique(c.entityIds, adj))
          && c.cohesion * (|c.entityIds| * (|c.entityIds| - 1) / 2) as real
             == |InternalEdges(ToSet(c.entityIds), adj)| as real)
  }

  /** Two different clusters share no entity. */
  ghost predicate Apart(clusters: seq<Cluster>) {
    forall i, j, id :: 0 <= i < j < |clusters| && id in clusters[i].entityIds ==> id !in clusters[j].entityIds
  }

  /** Every entity is in some cluster. */
  ghost predicate Covers(adj: Adjacency, clusters: seq<Cluster>) {
    forall id :: id in adj ==> exists i :: 0 <= i < |clusters| && id in clusters[i].entityIds
  }

  /** An entity without neighbours is alone in its cluster. */
  ghost predicate IsolatedAlone(adj: Adjacency, clusters: seq<Cluster>) {
    forall i, v, u :: (0 <= i < |clusters| && v in clusters[i].entityIds && u in clusters[i].entityIds
                       && v in adj && adj[v] == {}) ==> u == v
  }

  /** The graph of the stored rows: exactly the relations and shared files, both ways. */
  ghost predicate GraphOf(rows: seq<Row>, rels: seq<Relation>, adj: Adjacency) {
    && adj.Keys == Load(rows).file.Keys && Symmetric(adj)
    && forall a, b :: a in adj ==>
         (b in adj[a] <==> b in adj && (Related(rels, a, b) || ShareFile(Load(rows), a, b)))
  }

  ghost predicate SameCluster(clusters: seq<Cluster>, a: string, b: string) {
    exists i :: 0 <= i < |clusters| && a in clusters[i].entityIds && b in clusters[i].entityIds
  }

  /** Entities share a cluster exactly when they carry the same label. */
  ghost predicate ByLabel(adj: Adjacency, labels: Labels, clusters: seq<Cluster>) {
    forall a, b :: a in adj && b in adj ==>
      a in labels && b in labels && (SameCluster(clusters, a, b) <==> labels[a] == labels[b])
  }

  /**
   The clusters are those of the labels after a hundred rounds, which are stable unless each of the
   hundred changed some label. They split the entities: each entity is in one and only one, the sizes add up, each
   cluster lies within a connected component, and an entity without neighbours is alone in its own.
   */
  method DetectModules(rows: seq<Row>, rels: seq<Relation>) returns (clusters: seq<Cluster>, ghost adj: Adjacency)
    ensures GraphOf(rows, rels, adj)
    ensures forall c :: c in clusters ==> ClusterOk(adj, c)
    ensures Apart(clusters) && Covers(adj, clusters) && IsolatedAlone(adj, clusters)
    ensures SizeOf(clusters) == |Load(rows).order|
    ensures GraphOk(adj, Initial(adj)) && ByLabel(adj, Rounds(adj, Initial(adj), 100), clusters)
    ensures StableOrSpent(adj, 100)
  {
    hide *;
    var graph, d := LoadGraph(rows, rels);
    adj := graph;
    GraphIs(rows, rels, adj);
    EntitiesAre(rows);
    ghost var converged;
    var labels;
    labels, converged := PropagateLabels(graph, MAX_ITERATIONS);
    LabelKeys(adj, labels);
    var names, groups := GroupByLabel(d.order, labels);
    GroupsAre(d.order, labels, names, groups);
    GroupsConnected(adj, d.order, labels, names, groups);
    GroupsReady(adj, d.order, labels, names, groups);
    clusters := BuildClusters(adj, graph, names, groups);
    Delivered(adj, d.order, labels, names, groups, clusters);
    MaxIterationsIs();
    RoundsEnd(adj, 100);
  }

  lemma MaxIterationsIs()
    ensures MAX_ITERATIONS == 100
  {
  }

  lemma GraphIs(rows: seq<Row>, rels: seq<Relation>, adj: Adjacency)
    requires adj.Keys == Load(rows).file.Keys && Symmetric(adj)
    requires forall a, b :: a in adj ==>
               (b in adj[a] <==> b in adj && (Related(rels, a, b) || ShareFile(Load(rows), a, b)))
    ensures GraphOf(rows, rels, adj)
  {
    hide Load, Symmetric, Related, ShareFile;
  }

  lemma EntitiesAre(rows: seq<Row>)
    ensures var d := Load(rows); Distinct(d.order) && forall id :: id in d.order <==> id in d.file
  {
    var d := Load(rows);
    assert EntitiesOk(d);
  }

  lemma LabelKeys(adj: Adjacency, labels: Labels)
    requires GraphOk(adj, labels)
    ensures labels.Keys == adj.Keys
  {
  }

  // ----- the groups -----

  /** The groups split the entities by label. */
  ghost predicate Partition(order: seq<string>, labels: Labels, names: seq<string>, groups: map<string, seq<string>>) {
    && Distinct(names) && (forall l :: l in names <==> l in groups)
    && (forall id, l :: l in groups ==> (id in groups[l] <==> id in order && id in labels && labels[id] == l))
    && (forall l :: l in groups ==> groups[l] != [] && Distinct(groups[l]))
    && (forall id :: id in order ==> id in labels && labels[id] in groups)
    && TotalSize(names, groups) == |order|
  }

  /** Entities of one group are connected, and an entity without neighbours is alone in its group. */
  ghost predicate Together(adj: Adjacency, groups: map<string, seq<string>>) {
    forall l, a, b :: l in groups && a in groups[l] && b in groups[l] ==>
      Connected(adj, a, b) && a in adj && (adj[a] == {} ==> a == b)
  }

  lemma GroupsAre(order: seq<string>, labels: Labels, names: seq<string>, groups: map<string, seq<string>>)
    requires Grouped(order, labels, names, groups) && Distinct(order) && forall id :: id in order ==> id in labels
    ensures Partition(order, labels, names, groups)
  {
    CommunitiesPartition(order, labels, names, groups);
    hide WithLabel, TotalSize, Distinct;
  }

  lemma GroupsConnected(
    adj: Adjacency, order: seq<string>, labels: Labels, names: seq<string>, groups: map<string, seq<string>>)
    requires Symmetric(adj) && (forall id :: id in order <==> id in adj)
    requires GraphOk(adj, Initial(adj)) && labels == Rounds(adj, Initial(adj), MAX_ITERATIONS)
    requires Partition(order, labels, names, groups)
    ensures Together(adj, groups)
  {
    hide Rounds, Connected, Symmetric, TotalSize, Distinct, Initial, GraphOk;
    forall l, a, b | l in groups && a in groups[l] && b in groups[l]
      ensures Connected(adj, a, b) && a in adj && (adj[a] == {} ==> a == b)
    {
      CommunitiesConnected(adj, MAX_ITERATIONS, a, b);
      if adj[a] == {} {
        IsolatedSingleton(adj, MAX_ITERATIONS, a, b);
      }
    }
  }

  // ----- one cluster for each group -----

  /** One cluster for each community, in order of first mention. */
  ghost predicate Matches(names: seq<string>, groups: map<string, seq<string>>, clusters: seq<Cluster>) {
    && (forall l :: l in names ==> l in groups)
    && |clusters| == |names| && forall i :: 0 <= i < |names| ==> clusters[i].entityIds == groups[names[i]]
  }

  /** What is asked of the groups that clusters are made of. */
  ghost predicate Ready(adj: Adjacency, names: seq<string>, groups: map<string, seq<string>>) {
    && Symmetric(adj) && Together(adj, groups) && (forall l :: l in names ==> l in groups)
    && forall l :: l in groups ==> groups[l] != [] && Distinct(groups[l])
  }

  lemma GroupsReady(
    adj: Adjacency, order: seq<string>, labels: Labels, names: seq<string>, groups: map<string, seq<string>>)
    requires Symmetric(adj) && Together(adj, groups) && Partition(order, labels, names, groups)
    ensures Ready(adj, names, groups)
  {
    hide Symmetric, Together, Distinct, TotalSize;
  }

  lemma GroupReady(adj: Adjacency, names: seq<string>, groups: map<string, seq<string>>, l: string)
    requires Ready(adj, names, groups) && l in names
    ensures l in groups && Symmetric(adj) && groups[l] != [] && Distinct(groups[l])
    ensures forall a :: a in groups[l] ==> a in adj
    ensures forall a, b :: a in groups[l] && b in groups[l] ==> Connected(adj, a, b)
  {
    hide Symmetric, Connected, Distinct;
  }

  method BuildClusters(
    ghost adj: Adjacency, graph: Adjacency, names: seq<string>, groups: map<string, seq<string>>)
    returns (clusters: seq<Cluster>)
    requires graph == adj && Ready(adj, names, groups)
    ensures Matches(names, groups, clusters) && forall c :: c in clusters ==> ClusterOk(adj, c)
  {
    clusters := [];
    assert Matches(names[..0], groups, clusters);
    for i := 0 to |names|
      invariant Matches(names[..i], groups, clusters) && forall c :: c in clusters ==> ClusterOk(adj, c)
    {
      hide *;
      GroupReady(adj, names, groups, names[i]);
      var ids := groups[names[i]];
      var cohesion := ComputeCohesion(ids, graph);
      ghost var before := clusters;
      ClusterIs(adj, Cluster(ids, cohesion));
      clusters := clusters + [Cluster(ids, cohesion)];
      MatchesSnoc(names[..i], names[i], groups, before, clusters[|before|]);
      TakeNext(names, i);
    }
    TakeAll(names);
  }

  lemma MatchesSnoc(names: seq<string>, l: string, groups: map<string, seq<string>>, clusters: seq<Cluster>, c: Cluster)
    requires Matches(names, groups, clusters) && l in groups && c.entityIds == groups[l]
    ensures Matches(names + [l], groups, clusters + [c])
  {
  }

  lemma ClusterIs(adj: Adjacency, c: Cluster)
    requires c.entityIds != [] && Distinct(c.entityIds) && (forall id :: id in c.entityIds ==> id in adj)
    requires forall a, b :: a in c.entityIds && b in c.entityIds ==> Connected(adj, a, b)
    requires 0.0 <= c.cohesion <= 1.0
    requires |c.entityIds| >= 2 ==>
               && (c.cohesion == 1.0 <==> Clique(c.entityIds, adj))
               && c.cohesion * (|c.entityIds| * (|c.entityIds| - 1) / 2) as real
                  == |InternalEdges(ToSet(c.entityIds), adj)| as real
    ensures ClusterOk(adj, c)
  {
    hide Connected, Clique, InternalEdges, ToSet, Distinct;
  }

  // ----- what the clusters deliver -----

  lemma {:induction false} SizesMatch(names: seq<string>, groups: map<string, seq<string>>, clusters: seq<Cluster>)
    requires Matches(names, groups, clusters)
    ensures SizeOf(clusters) == TotalSize(names, groups)
  {
    if names != [] {
      var front := names[..|names| - 1];
      SizesMatch(front, groups, clusters[..|clusters| - 1]);
      TotalSizeSnoc(front, names[|names| - 1], groups);
      assert names == front + [names[|names| - 1]];
    }
  }

  lemma {:induction false} TotalSizeSnoc(names: seq<string>, l: string, groups: map<string, seq<string>>)
    requires (forall m :: m in names ==> m in groups) && l in groups
    ensures TotalSize(names + [l], groups) == TotalSize(names, groups) + |groups[l]|
  {
    if names != [] {
      assert (names + [l])[1..] == names[1..] + [l];
      TotalSizeSnoc(names[1..], l, groups);
    } else {
      assert ([] + [l])[1..] == [];
    }
  }

  lemma Delivered(
    adj: Adjacency, order: seq<string>, labels: Labels, names: seq<string>, groups: map<string, seq<string>>,
    clusters: seq<Cluster>)
    requires (forall id :: id in order <==> id in adj) && Partition(order, labels, names, groups)
    requires Together(adj, groups) && Matches(names, groups, clusters)
    ensures Apart(clusters) && Covers(adj, clusters) && IsolatedAlone(adj, clusters) && SizeOf(clusters) == |order|
    ensures ByLabel(adj, labels, clusters)
  {
    SizesMatch(names, groups, clusters);
    assert TotalSize(names, groups) == |order|;
    hide *;
    ClustersCover(adj, order, labels, names, groups, clusters);
    ClustersApart(order, labels, names, groups, clusters);
    ClustersAlone(adj, names, groups, clusters);
    ClustersByLabel(adj, order, labels, names, groups, clusters);
  }

  lemma ClustersByLabel(
    adj: Adjacency, order: seq<string>, labels: Labels, names: seq<string>, groups: map<string, seq<string>>,
    clusters: seq<Cluster>)
    requires (forall id :: id in order <==> id in adj) && Partition(order, labels, names, groups)
    requires Matches(names, groups, clusters)
    ensures ByLabel(adj, labels, clusters)
  {
    hide TotalSize, Distinct;
    forall a, b | a in adj && b in adj
      ensures a in labels && b in labels && (SameCluster(clusters, a, b) <==> labels[a] == labels[b])
    {
      var k :| 0 <= k < |names| && names[k] == labels[a];
      assert clusters[k].entityIds == groups[labels[a]];
      if i :| 0 <= i < |clusters| && a in clusters[i].entityIds && b in clusters[i].entityIds {
        assert clusters[i].entityIds == groups[names[i]];
      }
    }
  }

  lemma ClustersCover(
    adj: Adjacency, order: seq<string>, labels: Labels, names: seq<string>, groups: map<string, seq<string>>,
    clusters: seq<Cluster>)
    requires (forall id :: id in order <==> id in adj) && Partition(order, labels, names, groups)
    requires Matches(names, groups, clusters)
    ensures Covers(adj, clusters)
  {
    hide TotalSize, Distinct;
    forall id | id in adj ensures exists i :: 0 <= i < |clusters| && id in clusters[i].entityIds {
      assert labels[id] in names;
      var i :| 0 <= i < |names| && names[i] == labels[id];
      assert id in clusters[i].entityIds;
    }
  }

  lemma ClustersAlone(adj: Adjacency, names: seq<string>, groups: map<string, seq<string>>, clusters: seq<Cluster>)
    requires Together(adj, groups) && Matches(names, groups, clusters)
    ensures IsolatedAlone(adj, clusters)
  {
    hide Connected;
    forall i, v, u | 0 <= i < |clusters| && v in clusters[i].entityIds && u in clusters[i].entityIds
                     && v in adj && adj[v] == {}
      ensures u == v
    {
      assert clusters[i].entityIds == groups[names[i]] && names[i] in groups;
    }
  }

  lemma ClustersApart(
    order: seq<string>, labels: Labels, names: seq<string>, groups: map<string, seq<string>>, clusters: seq<Cluster>)
    requires Partition(order, labels, names, groups) && Matches(names, groups, clusters)
    ensures Apart(clusters)
  {
    hide TotalSize;
    forall i, j, id | 0 <= i < j < |clusters| && id in clusters[i].entityIds ensures id !in clusters[j].entityIds {
      var l, m := names[i], names[j];
      assert l in groups && m in groups && l != m;
      assert clusters[i].entityIds == groups[l] && clusters[j].entityIds == groups[m];
      assert labels[id] == l;
    }
  }
}
