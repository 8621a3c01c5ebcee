/**
 Bounded breadth-first traversal of the visible directed graph.

 `Search` is the state of the queue loop; `Run` is that loop; the lemmas compare its outcome
 with hop counts (`Hops`), which know nothing of queues.
 */
module Traversal {
  import opened Collections
  import opened Ordering
  import opened ServiceGraph
  import opened Wrappers

  /** The edges whose two ends are visible, in id order, read in one direction. */
  datatype Digraph = Digraph(ids: set<string>, edges: seq<Edge>, reverse: bool)

  function Near(e: Edge, reverse: bool): string { if reverse then e.target else e.source }

  function Far(e: Edge, reverse: bool): string { if reverse then e.source else e.target }

  function Build(nodes: seq<Node>, edges: seq<Edge>, reverse: bool): Digraph {
    var ids := Ids(nodes);
    Digraph(ids, EdgesWithin(Sort(edges, EdgeLe), ids), reverse)
  }

  ghost predicate WellFormed(g: Digraph) {
    && (forall e :: e in g.edges ==> e.source in g.ids && e.target in g.ids)
    && UniqueEdges(g.edges)
  }

  /** `adjacency.get(v, [])`. */
  function Out(edges: seq<Edge>, reverse: bool, v: string): (r: seq<Edge>)
    ensures forall e :: e in r <==> e in edges && Near(e, reverse) == v
  {
    if edges == [] then []
    else
      assert edges == [edges[0]] + edges[1..];
      if Near(edges[0], reverse) == v then [edges[0]] + Out(edges[1..], reverse, v)
      else Out(edges[1..], reverse, v)
  }

  // ----- distance -----

  lemma JoinedBy(g: Digraph, e: Edge)
    requires e in g.edges
    ensures Joined(g, Near(e, g.reverse), Far(e, g.reverse))
  {
    assert LeadsOn(e, g.reverse, Near(e, g.reverse), Far(e, g.reverse));
  }

  /** The edge leads from `a` to `b`: along it, or against it when walking in reverse. */
  ghost predicate LeadsOn(e: Edge, reverse: bool, a: string, b: string) {
    if reverse then e.target == a && e.source == b else e.source == a && e.target == b
  }

  ghost predicate Joined(g: Digraph, a: string, b: string) {
    exists e :: e in g.edges && LeadsOn(e, g.reverse, a, b)
  }

  /** Some walk of exactly `k` edges leads from `a` to `b`. */
  ghost predicate Hops(g: Digraph, a: string, b: string, k: nat)
    decreases k
  {
    if k == 0 then a == b
    else exists m :: Hops(g, a, m, k - 1) && Joined(g, m, b)
  }

  ghost predicate Reaches(g: Digraph, a: string, b: string, k: nat) {
    exists j: nat :: j <= k && Hops(g, a, b, j)
  }

  ghost predicate IsDistance(g: Digraph, a: string, b: string, k: nat) {
    Hops(g, a, b, k) && forall j: nat :: j < k ==> !Hops(g, a, b, j)
  }

  ghost function Ball(g: Digraph, root: string, depth: nat): set<string> {
    set v | v in g.ids && Reaches(g, root, v, depth)
  }

  // ----- the loop -----

  datatype Item = Item(id: string, distance: nat)

  /** `dist.Keys` is `selected_ids`; the values are the distances the frontier recorded. */
  datatype Search = Search(queue: seq<Item>, dist: map<string, nat>, traversed: seq<Edge>)

  /** `traversed[e.id] = e` on an insertion-ordered dictionary. */
  function Put(s: seq<Edge>, e: Edge): (r: seq<Edge>)
    requires forall f :: f in s && f.id == e.id ==> f == e
    ensures forall f :: f in r <==> f in s || f == e
  {
    if e in s then s else s + [e]
  }

  predicate Ready(g: Digraph, es: seq<Edge>, s: Search) {
    && s.dist.Keys <= g.ids
    && (forall e :: e in es ==> e in g.edges)
    && (forall e :: e in s.traversed ==> e in g.edges)
  }

  lemma TraversedIds(g: Digraph, s: Search, e: Edge)
    requires WellFormed(g) && e in g.edges && forall f :: f in s.traversed ==> f in g.edges
    ensures forall f :: f in s.traversed && f.id == e.id ==> f == e
  {
    forall f | f in s.traversed && f.id == e.id ensures f == e { SameEdge(g.edges, e, f); }
  }

  function Visit(g: Digraph, limit: nat, e: Edge, d: nat, s: Search): (r: Search)
    requires WellFormed(g) && Ready(g, [e], s)
    ensures Ready(g, [], r)
    ensures r.dist != s.dist ==> s.dist.Keys < r.dist.Keys
    ensures r.dist == s.dist ==> r.queue == s.queue
  {
    assert e in [e];
    TraversedIds(g, s, e);
    var next := Far(e, g.reverse);
    var t := Put(s.traversed, e);
    if next in s.dist || |s.dist| == limit then s.(traversed := t)
    else Search(s.queue + [Item(next, d + 1)], s.dist[next := d + 1], t)
  }

  function VisitAll(g: Digraph, limit: nat, es: seq<Edge>, d: nat, s: Search): (r: Search)
    requires WellFormed(g) && Ready(g, es, s)
    ensures Ready(g, [], r)
    ensures r.dist != s.dist ==> s.dist.Keys < r.dist.Keys
    ensures r.dist == s.dist ==> r.queue == s.queue
    decreases |es|
  {
    if es == [] then s else VisitAll(g, limit, es[1..], d, Visit(g, limit, es[0], d, s))
  }

  function Pop(s: Search): Search
    requires s.queue != []
  {
    s.(queue := s.queue[1..])
  }

  function Step(g: Digraph, depth: nat, limit: nat, s: Search): (r: Search)
    requires WellFormed(g) && Ready(g, [], s) && s.queue != []
    ensures Ready(g, [], r)
    ensures r.dist != s.dist ==> s.dist.Keys < r.dist.Keys
    ensures r.dist == s.dist ==> r.queue == s.queue[1..]
  {
    var cur := s.queue[0];
    if cur.distance == depth then Pop(s)
    else VisitAll(g, limit, Out(g.edges, g.reverse, cur.id), cur.distance, Pop(s))
  }

  function Run(g: Digraph, depth: nat, limit: nat, s: Search): (r: Search)
    requires WellFormed(g) && Ready(g, [], s)
    ensures Ready(g, [], r)
    decreases g.ids - s.dist.Keys, |s.queue|
  {
    if s.queue == [] then s
    else
      var t := Step(g, depth, limit, s);
      assert t.dist == s.dist || g.ids - t.dist.Keys < g.ids - s.dist.Keys;
      Run(g, depth, limit, t)
  }

  function Start(root: string): Search { Search([Item(root, 0)], map[root := 0], []) }

  function EdgesWithin(edges: seq<Edge>, ids: set<string>): seq<Edge> {
    Filter(edges, (e: Edge) => e.source in ids && e.target in ids)
  }

  function SelectedEdges(traversed: seq<Edge>, selected: set<string>): seq<Edge> {
    Sort(EdgesWithin(traversed, selected), EdgeLe)
  }

  function Traverse(nodes: seq<Node>, edges: seq<Edge>, root: string, depth: nat, limit: nat, reverse: bool): (r: Graph)
    requires UniqueEdges(edges)
  {
    if root !in Ids(nodes) then Graph([], [])
    else
      BuildWellFormed(nodes, edges, reverse);
      var s := Run(Build(nodes, edges, reverse), depth, limit, Start(root));
      Graph(NodesWithin(nodes, s.dist.Keys), SelectedEdges(s.traversed, s.dist.Keys))
  }

  lemma BuildWellFormed(nodes: seq<Node>, edges: seq<Edge>, reverse: bool)
    requires UniqueEdges(edges)
    ensures WellFormed(Build(nodes, edges, reverse))
  {
    SortEdgesUnique(edges);
    var ids := Ids(nodes);
    FilterUniqueEdges(Sort(edges, EdgeLe), (e: Edge) => e.source in ids && e.target in ids);
  }

  /** The edge list of the digraph is the sorted list of the edges joining visible nodes. */
  lemma BuildSorted(nodes: seq<Node>, edges: seq<Edge>, reverse: bool)
    requires UniqueEdges(edges)
    ensures Sorted(Build(nodes, edges, reverse).edges, EdgeLe)
  {
    StrLeIsOrder();
    SortSorted(edges, EdgeLe);
    var ids := Ids(nodes);
    FilterSorted(Sort(edges, EdgeLe), EdgeLe, (e: Edge) => e.source in ids && e.target in ids);
  }

  // ----- what every step keeps -----

  ghost predicate Queued(s: Search, v: string) {
    exists i :: 0 <= i < |s.queue| && s.queue[i].id == v
  }

  /** Node `v` has left the queue and was near enough to be expanded. */
  ghost predicate Expanded(s: Search, depth: nat, v: string) {
    v in s.dist && s.dist[v] < depth && !Queued(s, v)
  }

  ghost predicate QueueOk(queue: seq<Item>, dist: map<string, nat>, level: nat) {
    && (forall i :: 0 <= i < |queue| ==> var q := queue[i];
         q.id in dist && dist[q.id] == q.distance && level <= q.distance <= level + 1)
    && (forall i, j :: 0 <= i < j < |queue| ==> queue[i].distance <= queue[j].distance)
    && (forall i, j :: 0 <= i < j < |queue| ==> queue[i].id != queue[j].id)
  }

  ghost predicate DistancesOk(
    g: Digraph, root: string, depth: nat, limit: nat, dist: map<string, nat>, level: nat)
  {
    && root in dist && dist.Keys <= g.ids && |dist| <= limit
    && forall v :: v in dist ==> IsDistance(g, root, v, dist[v]) && dist[v] <= depth && dist[v] <= level + 1
  }

  /** Below the limit, every node within `level` hops is selected. */
  ghost predicate LevelComplete(g: Digraph, root: string, limit: nat, dist: map<string, nat>, level: nat) {
    |dist| < limit ==> forall v, j: nat :: j <= level && Hops(g, root, v, j) ==> v in dist
  }

  /** No selected node is farther from the root than a node left out. */
  ghost predicate NearestFirst(g: Digraph, root: string, dist: map<string, nat>) {
    forall v, j: nat, u :: Hops(g, root, v, j) && v !in dist && u in dist ==> dist[u] <= j
  }

  /** Every edge of an expanded node is traversed, but for those still in hand. */
  ghost predicate EdgesOk(g: Digraph, depth: nat, limit: nat, s: Search, hand: seq<Edge>) {
    && (forall e :: e in s.traversed ==> e in g.edges && Expanded(s, depth, Near(e, g.reverse)))
    && (forall e :: e in g.edges && Expanded(s, depth, Near(e, g.reverse)) && e !in hand ==>
          e in s.traversed && (|s.dist| < limit ==> Far(e, g.reverse) in s.dist))
    && (forall i, j :: 0 <= i < j < |s.traversed| ==> s.traversed[i] != s.traversed[j])
  }

  ghost predicate Inv(g: Digraph, root: string, depth: nat, limit: nat, s: Search, level: nat, hand: seq<Edge>) {
    && WellFormed(g)
    && DistancesOk(g, root, depth, limit, s.dist, level)
    && QueueOk(s.queue, s.dist, level)
    && LevelComplete(g, root, limit, s.dist, level)
    && NearestFirst(g, root, s.dist)
    && EdgesOk(g, depth, limit, s, hand)
  }

  /** An edge that selects nothing new only joins the traversed edges. */
  lemma SkipKeeps(g: Digraph, depth: nat, limit: nat, s: Search, hand: seq<Edge>, r: Search)
    requires EdgesOk(g, depth, limit, s, hand) && hand != [] && hand[0] in g.edges
    requires forall f :: f in s.traversed && f.id == hand[0].id ==> f == hand[0]
    requires Expanded(s, depth, Near(hand[0], g.reverse))
    requires Far(hand[0], g.reverse) in s.dist || |s.dist| == limit
    requires r == s.(traversed := Put(s.traversed, hand[0]))
    ensures EdgesOk(g, depth, limit, r, hand[1..])
    ensures forall x :: Queued(r, x) <==> Queued(s, x)
  {
    assert forall x :: Queued(r, x) <==> Queued(s, x);
    assert forall x :: Expanded(r, depth, x) <==> Expanded(s, depth, x);
    assert forall f :: f in hand ==> f == hand[0] || f in hand[1..];
  }

  lemma PushQueued(s: Search, r: Search, w: string, d: nat)
    requires r.queue == s.queue + [Item(w, d)]
    ensures forall x :: Queued(r, x) <==> Queued(s, x) || x == w
  {
    forall x ensures Queued(r, x) <==> Queued(s, x) || x == w {
      if Queued(s, x) {
        var i :| 0 <= i < |s.queue| && s.queue[i].id == x;
        assert r.queue[i].id == x;
      }
      if x == w { assert r.queue[|s.queue|].id == x; }
    }
  }

  /** A node first met from the current level lies exactly one hop further out. */
  lemma PushDistances(
    g: Digraph, root: string, depth: nat, limit: nat, dist: map<string, nat>, level: nat, v: string, w: string)
    requires DistancesOk(g, root, depth, limit, dist, level) && LevelComplete(g, root, limit, dist, level)
    requires NearestFirst(g, root, dist) && level < depth
    requires v in dist && dist[v] == level && Joined(g, v, w) && w !in dist && |dist| != limit && w in g.ids
    ensures var r := dist[w := level + 1];
            && |r| == |dist| + 1 && DistancesOk(g, root, depth, limit, r, level)
            && LevelComplete(g, root, limit, r, level) && NearestFirst(g, root, r)
  {
    var r := dist[w := level + 1];
    assert r.Keys == dist.Keys + {w};
    assert |r| == |r.Keys|;
    assert IsDistance(g, root, w, level + 1) by {
      assert Hops(g, root, v, level);
      assert Hops(g, root, w, level + 1);
    }
    hide Hops, Joined;
  }

  lemma PushQueue(queue: seq<Item>, dist: map<string, nat>, level: nat, w: string)
    requires QueueOk(queue, dist, level) && w !in dist
    ensures QueueOk(queue + [Item(w, level + 1)], dist[w := level + 1], level)
  {
  }

  lemma PushEdges(g: Digraph, depth: nat, limit: nat, s: Search, hand: seq<Edge>, r: Search, w: string)
    requires EdgesOk(g, depth, limit, s, hand) && hand != [] && hand[0] in g.edges
    requires forall f :: f in s.traversed && f.id == hand[0].id ==> f == hand[0]
    requires Expanded(s, depth, Near(hand[0], g.reverse)) && w == Far(hand[0], g.reverse) && w !in s.dist
    requires w in r.dist && r.dist == s.dist[w := r.dist[w]]
    requires r.traversed == Put(s.traversed, hand[0]) && |r.dist| == |s.dist| + 1
    requires forall x :: Queued(r, x) <==> Queued(s, x) || x == w
    ensures EdgesOk(g, depth, limit, r, hand[1..])
  {
    assert forall x :: Expanded(r, depth, x) <==> Expanded(s, depth, x);
    assert forall f :: f in hand ==> f == hand[0] || f in hand[1..];
  }

  lemma VisitKeeps(g: Digraph, root: string, depth: nat, limit: nat, s: Search, level: nat, hand: seq<Edge>)
    requires Inv(g, root, depth, limit, s, level, hand) && hand != [] && Ready(g, hand, s)
    requires level < depth
    requires var v := Near(hand[0], g.reverse); v in s.dist && s.dist[v] == level && !Queued(s, v)
    ensures var r := Visit(g, limit, hand[0], level, s);
            Inv(g, root, depth, limit, r, level, hand[1..])
    ensures var r := Visit(g, limit, hand[0], level, s);
            forall v :: v in s.dist && !Queued(s, v) ==> v in r.dist && r.dist[v] == s.dist[v] && !Queued(r, v)
  {
    hide NearestFirst, LevelComplete, DistancesOk, QueueOk, EdgesOk, Joined;
    var e := hand[0];
    var v, w := Near(e, g.reverse), Far(e, g.reverse);
    TraversedIds(g, s, e);
    var r := Visit(g, limit, e, level, s);
    assert e in g.edges && w in g.ids;
    hide WellFormed;
    if w in s.dist || |s.dist| == limit {
      SkipKeeps(g, depth, limit, s, hand, r);
    } else {
      PushQueued(s, r, w, level + 1);
      JoinedBy(g, e);
      PushDistances(g, root, depth, limit, s.dist, level, v, w);
      PushQueue(s.queue, s.dist, level, w);
      PushEdges(g, depth, limit, s, hand, r, w);
    }
  }

  lemma {:induction false} VisitAllKeeps(
    g: Digraph, root: string, depth: nat, limit: nat, s: Search, level: nat, hand: seq<Edge>, v: string)
    requires Inv(g, root, depth, limit, s, level, hand) && Ready(g, hand, s)
    requires level < depth && v in s.dist && s.dist[v] == level && !Queued(s, v)
    requires forall e :: e in hand ==> Near(e, g.reverse) == v
    ensures Inv(g, root, depth, limit, VisitAll(g, limit, hand, level, s), level, [])
    decreases |hand|
  {
    if hand != [] {
      VisitKeeps(g, root, depth, limit, s, level, hand);
      VisitAllKeeps(g, root, depth, limit, Visit(g, limit, hand[0], level, s), level, hand[1..], v);
    }
  }

  /** When the queue holds only the next level, that level is complete. */
  lemma LevelAdvances(g: Digraph, root: string, depth: nat, limit: nat, s: Search, level: nat)
    requires Inv(g, root, depth, limit, s, level, [])
    requires s.queue != [] ==> s.queue[0].distance == level + 1
    requires level < depth
    ensures LevelComplete(g, root, limit, s.dist, level + 1)
  {
    hide NearestFirst, UniqueEdges;
    if |s.dist| < limit {
      forall v, j: nat | j <= level + 1 && Hops(g, root, v, j) ensures v in s.dist {
        if j == level + 1 {
          var m :| Hops(g, root, m, level) && Joined(g, m, v);
          assert m in s.dist && s.dist[m] <= level;
          assert Expanded(s, depth, m);
          var e :| e in g.edges && LeadsOn(e, g.reverse, m, v);
        }
      }
    }
  }

  lemma PopQueued(s: Search)
    requires s.queue != []
    requires forall i, j :: 0 <= i < j < |s.queue| ==> s.queue[i].id != s.queue[j].id
    ensures forall x :: Queued(Pop(s), x) <==> Queued(s, x) && x != s.queue[0].id
  {
    var r := Pop(s);
    forall x ensures Queued(r, x) <==> Queued(s, x) && x != s.queue[0].id {
      if Queued(r, x) {
        var i :| 0 <= i < |r.queue| && r.queue[i].id == x;
        assert s.queue[i + 1].id == x;
      }
      if Queued(s, x) && x != s.queue[0].id {
        var i :| 0 <= i < |s.queue| && s.queue[i].id == x;
        assert r.queue[i - 1].id == x;
      }
    }
  }

  /** What `PopKeeps` leaves to be visited. */
  function Hand(g: Digraph, depth: nat, cur: Item): seq<Edge> {
    if cur.distance < depth then Out(g.edges, g.reverse, cur.id) else []
  }

  lemma PopEdges(g: Digraph, depth: nat, limit: nat, s: Search)
    requires s.queue != [] && EdgesOk(g, depth, limit, s, [])
    requires s.queue[0].id in s.dist && s.dist[s.queue[0].id] == s.queue[0].distance
    requires forall x :: Queued(Pop(s), x) <==> Queued(s, x) && x != s.queue[0].id
    ensures EdgesOk(g, depth, limit, Pop(s), Hand(g, depth, s.queue[0]))
  {
    var r, cur := Pop(s), s.queue[0];
    assert forall x :: Expanded(s, depth, x) ==> Expanded(r, depth, x);
    assert forall x :: Expanded(r, depth, x) ==> Expanded(s, depth, x) || x == cur.id;
  }

  lemma PopKeeps(g: Digraph, root: string, depth: nat, limit: nat, s: Search, level: nat)
    requires Inv(g, root, depth, limit, s, level, []) && s.queue != []
    ensures var cur := s.queue[0]; Inv(g, root, depth, limit, Pop(s), cur.distance, Hand(g, depth, cur))
    ensures !Queued(Pop(s), s.queue[0].id)
  {
    var cur := s.queue[0];
    var r := Pop(s);
    if cur.distance == level + 1 {
      assert s.dist[cur.id] <= depth;
      LevelAdvances(g, root, depth, limit, s, level);
    }
    PopQueued(s);
    PopEdges(g, depth, limit, s);
    assert QueueOk(r.queue, r.dist, cur.distance);
  }

  lemma StepKeeps(g: Digraph, root: string, depth: nat, limit: nat, s: Search, level: nat) returns (next: nat)
    requires Inv(g, root, depth, limit, s, level, []) && s.queue != [] && Ready(g, [], s)
    ensures Inv(g, root, depth, limit, Step(g, depth, limit, s), next, [])
  {
    var cur := s.queue[0];
    next := cur.distance;
    PopKeeps(g, root, depth, limit, s, level);
    if next < depth {
      VisitAllKeeps(g, root, depth, limit, Pop(s), next, Out(g.edges, g.reverse, cur.id), cur.id);
    }
  }

  lemma {:induction false} RunKeeps(g: Digraph, root: string, depth: nat, limit: nat, s: Search, level: nat)
    returns (last: nat)
    requires Inv(g, root, depth, limit, s, level, []) && Ready(g, [], s)
    ensures var r := Run(g, depth, limit, s); r.queue == [] && Inv(g, root, depth, limit, r, last, [])
    decreases g.ids - s.dist.Keys, |s.queue|
  {
    if s.queue == [] {
      last := level;
    } else {
      var next := StepKeeps(g, root, depth, limit, s, level);
      var t := Step(g, depth, limit, s);
      assert t.dist == s.dist || g.ids - t.dist.Keys < g.ids - s.dist.Keys;
      last := RunKeeps(g, root, depth, limit, t, next);
    }
  }

  // ----- what the traversal promises -----

  /** Short of the limit, the whole ball is selected. */
  lemma {:induction false} DrainedComplete(
    g: Digraph, root: string, depth: nat, limit: nat, s: Search, level: nat, v: string, j: nat)
    requires Inv(g, root, depth, limit, s, level, []) && s.queue == [] && |s.dist| < limit
    requires Hops(g, root, v, j) && j <= depth
    ensures v in s.dist
    decreases j
  {
    if j > 0 {
      var m :| Hops(g, root, m, j - 1) && Joined(g, m, v);
      DrainedComplete(g, root, depth, limit, s, level, m, j - 1);
      assert s.dist[m] <= j - 1;
      assert Expanded(s, depth, m);
      var e :| e in g.edges && LeadsOn(e, g.reverse, m, v);
    }
  }

  lemma SelectedCount(g: Digraph, root: string, depth: nat, limit: nat, s: Search, level: nat)
    requires Inv(g, root, depth, limit, s, level, []) && s.queue == []
    ensures s.dist.Keys <= Ball(g, root, depth)
    ensures |s.dist| == if |Ball(g, root, depth)| < limit then |Ball(g, root, depth)| else limit
  {
    var ball := Ball(g, root, depth);
    if |s.dist| < limit {
      forall v | v in ball ensures v in s.dist.Keys {
        var j: nat :| j <= depth && Hops(g, root, v, j);
        DrainedComplete(g, root, depth, limit, s, level, v, j);
      }
      assert ball == s.dist.Keys;
    } else {
      Subset(s.dist.Keys, ball);
    }
  }

  lemma {:induction false} Subset<T>(a: set<T>, b: set<T>)
    requires a <= b
    ensures |a| <= |b|
  {
    if a != {} {
      var x :| x in a;
      Subset(a - {x}, b - {x});
    }
  }

  lemma StartOk(g: Digraph, root: string, depth: nat, limit: nat)
    requires WellFormed(g) && root in g.ids && limit >= 1
    ensures Inv(g, root, depth, limit, Start(root), 0, []) && Ready(g, [], Start(root))
  {
    var s := Start(root);
    assert s.queue[0].id == root;
    assert Queued(s, root);
    assert IsDistance(g, root, root, 0);
  }

  /** What the queue loop has found when it stops. */
  lemma Drained(nodes: seq<Node>, edges: seq<Edge>, root: string, depth: nat, limit: nat, reverse: bool)
    returns (g: Digraph, s: Search, level: nat)
    requires UniqueEdges(edges) && root in Ids(nodes) && limit >= 1
    ensures g == Build(nodes, edges, reverse) && s.queue == []
    ensures Inv(g, root, depth, limit, s, level, [])
    ensures var r := Traverse(nodes, edges, root, depth, limit, reverse);
            && r == Graph(NodesWithin(nodes, s.dist.Keys), SelectedEdges(s.traversed, s.dist.Keys))
            && Ids(r.nodes) == s.dist.Keys
  {
    hide Inv, IsDistance, WellFormed, UniqueEdges, Run, NodesWithin, SelectedEdges;
    BuildWellFormed(nodes, edges, reverse);
    g := Build(nodes, edges, reverse);
    StartOk(g, root, depth, limit);
    level := RunKeeps(g, root, depth, limit, Start(root), 0);
    s := Run(g, depth, limit, Start(root));
    WithinIds(nodes, s.dist.Keys);
  }

  /** The selected nodes lie in the ball and fill it, or fill the limit. */
  lemma TraversalNodes(nodes: seq<Node>, edges: seq<Edge>, root: string, depth: nat, limit: nat, reverse: bool)
    requires UniqueEdges(edges) && root in Ids(nodes) && limit >= 1
    ensures var ball := Ball(Build(nodes, edges, reverse), root, depth);
            var r := Traverse(nodes, edges, root, depth, limit, reverse);
            && root in Ids(r.nodes) && Ids(r.nodes) <= ball
            && |Ids(r.nodes)| == (if |ball| < limit then |ball| else limit)
            && (forall n :: n in r.nodes <==> n in nodes && n.id in Ids(r.nodes))
  {
    var g, s, level := Drained(nodes, edges, root, depth, limit, reverse);
    SelectedCount(g, root, depth, limit, s, level);
    assert |s.dist| == |s.dist.Keys|;
  }

  /** Truncation leaves out no node nearer than one it keeps. */
  lemma TruncationNearestFirst(
    nodes: seq<Node>, edges: seq<Edge>, root: string, depth: nat, limit: nat, reverse: bool,
    kept: string, keptDistance: nat, missed: string, hops: nat)
    requires UniqueEdges(edges) && root in Ids(nodes) && limit >= 1
    requires var g := Build(nodes, edges, reverse);
             IsDistance(g, root, kept, keptDistance) && Hops(g, root, missed, hops)
    requires var r := Traverse(nodes, edges, root, depth, limit, reverse);
             kept in Ids(r.nodes) && missed !in Ids(r.nodes)
    ensures keptDistance <= hops
    ensures hops <= depth ==> |Ids(Traverse(nodes, edges, root, depth, limit, reverse).nodes)| == limit
  {
    var g, s, level := Drained(nodes, edges, root, depth, limit, reverse);
    assert IsDistance(g, root, kept, s.dist[kept]);
    assert s.dist[kept] == keptDistance;
    if hops <= depth && |s.dist| < limit {
      DrainedComplete(g, root, depth, limit, s, level, missed, hops);
    }
    assert |s.dist| == |s.dist.Keys|;
  }

  /** The recorded distances are the true shortest distances, and only nodes within `depth` are met. */
  lemma RecordedDistances(g: Digraph, root: string, depth: nat, limit: nat)
    requires WellFormed(g) && root in g.ids && limit >= 1
    ensures Ready(g, [], Start(root))
    ensures var s := Run(g, depth, limit, Start(root));
            forall v :: v in s.dist ==> s.dist[v] <= depth && IsDistance(g, root, v, s.dist[v])
  {
    StartOk(g, root, depth, limit);
    var level := RunKeeps(g, root, depth, limit, Start(root), 0);
  }

  /**
   The edges returned are those with both ends selected whose near end, the source or in reverse the
   target, is nearer than `depth`; they come in the order of their ids.
   */
  lemma TraversalEdges(nodes: seq<Node>, edges: seq<Edge>, root: string, depth: nat, limit: nat, reverse: bool)
    requires UniqueEdges(edges) && root in Ids(nodes) && limit >= 1 && depth >= 1
    ensures var g := Build(nodes, edges, reverse);
            var r := Traverse(nodes, edges, root, depth, limit, reverse);
            && UniqueEdges(r.edges) && (forall i, j :: 0 <= i < j < |r.edges| ==> StrLe(r.edges[i].id, r.edges[j].id))
            && forall e :: e in r.edges <==>
                 e in edges && e.source in Ids(r.nodes) && e.target in Ids(r.nodes)
                 && Reaches(g, root, if reverse then e.target else e.source, depth - 1)
  {
    var g, s, level := Drained(nodes, edges, root, depth, limit, reverse);
    TraversedUnique(g, s.traversed);
    SelectedEdgesOk(s.traversed, s.dist.Keys);
    BuildEdges(nodes, edges, reverse);
    hide Traverse, Build, SelectedEdges, Reaches, UniqueEdges;
    forall e | e in g.edges && Near(e, reverse) in s.dist
      ensures e in s.traversed <==> Reaches(g, root, Near(e, reverse), depth - 1)
    {
      DrainedEdge(g, root, depth, limit, s, level, e);
    }
  }

  /** Every selected node but the root is met across a returned edge, from a node one hop nearer. */
  lemma TraversalDirection(
    nodes: seq<Node>, edges: seq<Edge>, root: string, depth: nat, limit: nat, reverse: bool, v: string)
    returns (e: Edge, d: nat)
    requires UniqueEdges(edges) && root in Ids(nodes) && limit >= 1 && v != root
    requires v in Ids(Traverse(nodes, edges, root, depth, limit, reverse).nodes)
    ensures var g := Build(nodes, edges, reverse);
            && e in Traverse(nodes, edges, root, depth, limit, reverse).edges && d < depth
            && (if reverse then e.source else e.target) == v && IsDistance(g, root, v, d + 1)
            && IsDistance(g, root, if reverse then e.target else e.source, d)
  {
    hide *;
    var g, s, level := Drained(nodes, edges, root, depth, limit, reverse);
    ReverseIs(nodes, edges, reverse);
    e := MetFrom(g, root, depth, limit, s, level, v);
    d := s.dist[v] - 1;
    SelectedEdgesOk(s.traversed, s.dist.Keys);
  }

  lemma ReverseIs(nodes: seq<Node>, edges: seq<Edge>, reverse: bool)
    ensures Build(nodes, edges, reverse).reverse == reverse
  {
  }

  lemma MetFrom(g: Digraph, root: string, depth: nat, limit: nat, s: Search, level: nat, v: string) returns (e: Edge)
    requires Inv(g, root, depth, limit, s, level, []) && s.queue == [] && v in s.dist && v != root
    ensures 1 <= s.dist[v] <= depth && IsDistance(g, root, v, s.dist[v]) && UniqueEdges(s.traversed)
    ensures e in s.traversed && e.source in s.dist && e.target in s.dist
    ensures (if g.reverse then e.source else e.target) == v
    ensures IsDistance(g, root, if g.reverse then e.target else e.source, s.dist[v] - 1)
  {
    assert IsDistance(g, root, v, s.dist[v]);
    TraversedUnique(g, s.traversed);
    var d: nat := s.dist[v] - 1;
    var m :| Hops(g, root, m, d) && Joined(g, m, v);
    e :| e in g.edges && LeadsOn(e, g.reverse, m, v);
    assert m in s.dist;
    assert s.dist[v] <= depth;
    OneNearer(g, root, m, v, d);
    assert IsDistance(g, root, m, s.dist[m]);
    assert s.dist[m] == d;
    hide DistancesOk, NearestFirst, LevelComplete, QueueOk, WellFormed, IsDistance;
    assert Expanded(s, depth, m);
  }

  /** The node before the last on a shortest walk is one hop nearer. */
  lemma OneNearer(g: Digraph, root: string, m: string, v: string, d: nat)
    requires IsDistance(g, root, v, d + 1) && Hops(g, root, m, d) && Joined(g, m, v)
    ensures IsDistance(g, root, m, d)
  {
    forall j: nat | j < d ensures !Hops(g, root, m, j) {
      if Hops(g, root, m, j) {
        assert Hops(g, root, v, j + 1);
      }
    }
  }

  lemma SelectedEdgesOk(traversed: seq<Edge>, ids: set<string>)
    requires UniqueEdges(traversed)
    ensures UniqueEdges(SelectedEdges(traversed, ids))
    ensures var r := SelectedEdges(traversed, ids); forall i, j :: 0 <= i < j < |r| ==> StrLe(r[i].id, r[j].id)
    ensures forall e :: e in SelectedEdges(traversed, ids) <==> e in traversed && e.source in ids && e.target in ids
  {
    var within := EdgesWithin(traversed, ids);
    FilterUniqueEdges(traversed, (e: Edge) => e.source in ids && e.target in ids);
    SortEdgesUnique(within);
    StrLeIsOrder();
    SortSorted(within, EdgeLe);
  }

  lemma BuildEdges(nodes: seq<Node>, edges: seq<Edge>, reverse: bool)
    requires UniqueEdges(edges)
    ensures var g := Build(nodes, edges, reverse);
            && g.ids == Ids(nodes) && g.reverse == reverse && WellFormed(g)
            && forall e :: e in g.edges <==> e in edges && e.source in g.ids && e.target in g.ids
  {
    BuildWellFormed(nodes, edges, reverse);
    SortEdgesUnique(edges);
  }

  /** An edge of a selected node is traversed exactly when the node is nearer than `depth`. */
  lemma DrainedEdge(g: Digraph, root: string, depth: nat, limit: nat, s: Search, level: nat, e: Edge)
    requires Inv(g, root, depth, limit, s, level, []) && s.queue == [] && depth >= 1
    requires e in g.edges && Near(e, g.reverse) in s.dist
    ensures e in s.traversed <==> Reaches(g, root, Near(e, g.reverse), depth - 1)
  {
    var v := Near(e, g.reverse);
    assert IsDistance(g, root, v, s.dist[v]);
    assert Reaches(g, root, v, depth - 1) <==> s.dist[v] <= depth - 1;
    assert Expanded(s, depth, v) <==> s.dist[v] < depth;
  }

  lemma TraversedUnique(g: Digraph, es: seq<Edge>)
    requires UniqueEdges(g.edges) && forall e :: e in es ==> e in g.edges
    requires forall i, j :: 0 <= i < j < |es| ==> es[i] != es[j]
    ensures UniqueEdges(es)
  {
    forall i, j | 0 <= i < j < |es| ensures es[i].id != es[j].id {
      var a, b := es[i], es[j];
      if a.id == b.id { SameEdge(g.edges, a, b); }
    }
  }

  // ----- the queue loop itself -----

  function Bucket(adjacency: map<string, seq<Edge>>, v: string): seq<Edge> {
    if v in adjacency then adjacency[v] else []
  }

  lemma {:induction false} OutConcat(a: seq<Edge>, b: seq<Edge>, reverse: bool, v: string)
    ensures Out(a + b, reverse, v) == Out(a, reverse, v) + Out(b, reverse, v)
  {
    if a == [] {
      assert a + b == b;
    } else {
      assert (a + b)[1..] == a[1..] + b;
      OutConcat(a[1..], b, reverse, v);
    }
  }

  lemma OutSnoc(a: seq<Edge>, e: Edge, reverse: bool, v: string)
    ensures Out(a + [e], reverse, v) == Out(a, reverse, v) + (if Near(e, reverse) == v then [e] else [])
  {
    OutConcat(a, [e], reverse, v);
    assert [e][1..] == [];
  }

  lemma EdgesWithinSnoc(a: seq<Edge>, e: Edge, ids: set<string>)
    ensures EdgesWithin(a + [e], ids)
         == EdgesWithin(a, ids) + (if e.source in ids && e.target in ids then [e] else [])
  {
    FilterConcat(a, [e], (f: Edge) => f.source in ids && f.target in ids);
    assert [e][1..] == [];
  }

  lemma OutEmpty(edges: seq<Edge>, ids: set<string>, reverse: bool)
    ensures forall v :: Out(EdgesWithin(edges[..0], ids), reverse, v) == []
  {
  }

  lemma OutMembers(edges: seq<Edge>, ids: set<string>, reverse: bool)
    ensures forall v, e :: e in Out(EdgesWithin(edges, ids), reverse, v) <==>
              e in edges && e.source in ids && e.target in ids && (if reverse then e.target else e.source) == v
  {
  }

  method Adjacency(sorted: seq<Edge>, ids: set<string>, reverse: bool) returns (adjacency: map<string, seq<Edge>>)
    ensures forall v :: Bucket(adjacency, v) == Out(EdgesWithin(sorted, ids), reverse, v)
    ensures forall v, e :: e in Bucket(adjacency, v) <==>
              e in sorted && e.source in ids && e.target in ids && (if reverse then e.target else e.source) == v
  {
    OutMembers(sorted, ids, reverse);
    hide Out, EdgesWithin, Near;
    adjacency := map[];
    assert forall v :: Out(EdgesWithin(sorted[..0], ids), reverse, v) == [] by { OutEmpty(sorted, ids, reverse); }
    for i := 0 to |sorted|
      invariant forall v :: Bucket(adjacency, v) == Out(EdgesWithin(sorted[..i], ids), reverse, v)
    {
      var e := sorted[i];
      assert sorted[..i + 1] == sorted[..i] + [e];
      EdgesWithinSnoc(sorted[..i], e, ids);
      assert EdgesWithin(sorted[..i], ids) + [] == EdgesWithin(sorted[..i], ids);
      if e.source in ids && e.target in ids {
        var near := Near(e, reverse);
        ghost var before := adjacency;
        adjacency := adjacency[near := Bucket(adjacency, near) + [e]];
        forall v ensures Bucket(adjacency, v) == Out(EdgesWithin(sorted[..i + 1], ids), reverse, v) {
          OutSnoc(EdgesWithin(sorted[..i], ids), e, reverse, v);
          assert Bucket(adjacency, v) == Bucket(before, v) + (if v == near then [e] else []);
        }
      }
    }
    assert sorted[..|sorted|] == sorted;
  }

  lemma VisitAllStep(g: Digraph, limit: nat, out: seq<Edge>, i: nat, d: nat, s: Search)
    requires WellFormed(g) && i < |out| && Ready(g, out[i..], s)
    ensures Ready(g, [out[i]], s) && Ready(g, out[i + 1..], Visit(g, limit, out[i], d, s))
    ensures VisitAll(g, limit, out[i..], d, s) == VisitAll(g, limit, out[i + 1..], d, Visit(g, limit, out[i], d, s))
  {
    assert out[i..][0] == out[i] && out[i..][1..] == out[i + 1..];
  }

  lemma VisitAllDone(g: Digraph, limit: nat, out: seq<Edge>, d: nat, s: Search)
    requires WellFormed(g) && Ready(g, out[|out|..], s)
    ensures VisitAll(g, limit, out[|out|..], d, s) == s
  {
  }

  /** One round of the inner loop: the edges out of a node taken from the frontier. */
  method Expand(
    ghost g: Digraph, out: seq<Edge>, reverse: bool, distance: nat, limit: nat, selected: set<string>,
    frontier: seq<Item>, traversed: seq<Edge>, ghost dist: map<string, nat>)
    returns (selected': set<string>, frontier': seq<Item>, traversed': seq<Edge>, ghost dist': map<string, nat>)
    requires WellFormed(g) && selected == dist.Keys && Ready(g, out, Search(frontier, dist, traversed))
    requires reverse == g.reverse
    ensures selected' == dist'.Keys
    ensures Search(frontier', dist', traversed') == VisitAll(g, limit, out, distance, Search(frontier, dist, traversed))
  {
    hide VisitAll, WellFormed;
    selected', frontier', traversed', dist' := selected, frontier, traversed, dist;
    for i := 0 to |out|
      invariant selected' == dist'.Keys && Ready(g, out[i..], Search(frontier', dist', traversed'))
      invariant VisitAll(g, limit, out[i..], distance, Search(frontier', dist', traversed'))
             == VisitAll(g, limit, out, distance, Search(frontier, dist, traversed))
    {
      var e := out[i];
      ghost var s := Search(frontier', dist', traversed');
      VisitAllStep(g, limit, out, i, distance, s);
      TraversedIds(g, s, e);
      assert |dist'| == |dist'.Keys|;
      var next := Far(e, reverse);
      traversed' := Put(traversed', e);
      if next !in selected' && |selected'| != limit {
        selected' := selected' + {next};
        frontier' := frontier' + [Item(next, distance + 1)];
        dist' := dist'[next := distance + 1];
      }
      assert Search(frontier', dist', traversed') == Visit(g, limit, e, distance, s);
    }
    VisitAllDone(g, limit, out, distance, Search(frontier', dist', traversed'));
  }

  method TraverseGraph(nodes: seq<Node>, edges: seq<Edge>, root: string, depth: nat, limit: nat, reverse: bool)
    returns (r: Graph)
    requires UniqueEdges(edges)
    ensures r == Traverse(nodes, edges, root, depth, limit, reverse)
  {
    var ids := ById(nodes).Keys;
    if root !in ids {
      return Graph([], []);
    }
    var adjacency := Adjacency(Sort(edges, EdgeLe), ids, reverse);
    BuildWellFormed(nodes, edges, reverse);
    ghost var g := Build(nodes, edges, reverse);

    var selected, traversed, frontier := {root}, [], [Item(root, 0)];
    ghost var dist: map<string, nat> := map[root := 0];
    while frontier != []
      invariant selected == dist.Keys && Ready(g, [], Search(frontier, dist, traversed))
      invariant Run(g, depth, limit, Search(frontier, dist, traversed)) == Run(g, depth, limit, Start(root))
      decreases g.ids - dist.Keys, |frontier|
    {
      ghost var s := Search(frontier, dist, traversed);
      ghost var t := Step(g, depth, limit, s);
      assert t.dist == s.dist || g.ids - t.dist.Keys < g.ids - s.dist.Keys;
      var cur := frontier[0];
      frontier := frontier[1..];
      if cur.distance != depth {
        selected, frontier, traversed, dist :=
          Expand(g, Bucket(adjacency, cur.id), reverse, cur.distance, limit, selected, frontier, traversed, dist);
      }
      assert Search(frontier, dist, traversed) == t;
    }
    r := Graph(NodesWithin(nodes, selected), SelectedEdges(traversed, selected));
  }

  // ----- dependencies and impact are dual -----

  lemma {:induction false} HopsPrepend(g: Digraph, a: string, m: string, b: string, k: nat)
    requires Joined(g, a, m) && Hops(g, m, b, k)
    ensures Hops(g, a, b, k + 1)
    decreases k
  {
    if k == 0 {
      assert Hops(g, a, a, 0);
    } else {
      var n :| Hops(g, m, n, k - 1) && Joined(g, n, b);
      HopsPrepend(g, a, m, n, k - 1);
    }
  }

  lemma {:induction false} HopsReversed(g: Digraph, a: string, b: string, k: nat)
    requires Hops(g, a, b, k)
    ensures Hops(g.(reverse := !g.reverse), b, a, k)
    decreases k
  {
    if k > 0 {
      var h := g.(reverse := !g.reverse);
      var m :| Hops(g, a, m, k - 1) && Joined(g, m, b);
      HopsReversed(g, a, m, k - 1);
      assert Joined(h, b, m);
      HopsPrepend(h, b, m, a, k - 1);
    }
  }

  /** `b` is `k` steps along the edges from `a` exactly when `a` is `k` steps against them from `b`. */
  lemma DistanceDual(g: Digraph, a: string, b: string, k: nat)
    ensures IsDistance(g, a, b, k) <==> IsDistance(g.(reverse := !g.reverse), b, a, k)
    ensures Reaches(g, a, b, k) <==> Reaches(g.(reverse := !g.reverse), b, a, k)
  {
    var h := g.(reverse := !g.reverse);
    assert h.(reverse := !h.reverse) == g;
    forall j: nat ensures Hops(g, a, b, j) <==> Hops(h, b, a, j) {
      if Hops(g, a, b, j) { HopsReversed(g, a, b, j); }
      if Hops(h, b, a, j) { HopsReversed(h, b, a, j); }
    }
  }

  /** When neither traversal is cut short, `b` is a dependency of `a` exactly when `a` is impacted by `b`. */
  lemma ImpactDual(nodes: seq<Node>, edges: seq<Edge>, a: string, b: string, depth: nat, limit: nat)
    requires UniqueEdges(edges) && a in Ids(nodes) && b in Ids(nodes) && limit >= 1
    requires |Ball(Build(nodes, edges, false), a, depth)| <= limit
    requires |Ball(Build(nodes, edges, true), b, depth)| <= limit
    ensures b in Ids(Traverse(nodes, edges, a, depth, limit, false).nodes)
       <==> a in Ids(Traverse(nodes, edges, b, depth, limit, true).nodes)
    ensures forall k :: IsDistance(Build(nodes, edges, false), a, b, k)
                        <==> IsDistance(Build(nodes, edges, true), b, a, k)
  {
    var g, h := Build(nodes, edges, false), Build(nodes, edges, true);
    assert h == g.(reverse := true);
    TraversalNodes(nodes, edges, a, depth, limit, false);
    TraversalNodes(nodes, edges, b, depth, limit, true);
    SameSize(Ids(Traverse(nodes, edges, a, depth, limit, false).nodes), Ball(g, a, depth));
    SameSize(Ids(Traverse(nodes, edges, b, depth, limit, true).nodes), Ball(h, b, depth));
    DistanceDual(g, a, b, depth);
    forall k ensures IsDistance(g, a, b, k) <==> IsDistance(h, b, a, k) { DistanceDual(g, a, b, k); }
  }

  lemma SameSize<T>(a: set<T>, b: set<T>)
    requires a <= b && |a| == |b|
    ensures a == b
  {
    assert b == a + (b - a);
    assert |b| == |a| + |b - a|;
  }
}
