/** Walking the edges backwards is walking the turned edges forwards, truncation included. */
module Transposition {
  import opened Ordering
  import opened ServiceGraph
  import opened Traversal

  function Turn(e: Edge): Edge { e.(source := e.target, target := e.source) }

  function TurnAll(es: seq<Edge>): (r: seq<Edge>)
    ensures |r| == |es| && forall i :: 0 <= i < |es| ==> r[i] == Turn(es[i])
  {
    if es == [] then [] else [Turn(es[0])] + TurnAll(es[1..])
  }

  function TurnSearch(s: Search): Search { s.(traversed := TurnAll(s.traversed)) }

  function TurnGraph(g: Digraph): Digraph { Digraph(g.ids, TurnAll(g.edges), !g.reverse) }

  lemma TurnMember(es: seq<Edge>, e: Edge)
    ensures Turn(e) in TurnAll(es) <==> e in es
  {
    if Turn(e) in TurnAll(es) {
      var i :| 0 <= i < |es| && TurnAll(es)[i] == Turn(e);
      assert es[i] == Turn(Turn(es[i])) == e;
    }
    if e in es {
      var i :| 0 <= i < |es| && es[i] == e;
      assert TurnAll(es)[i] == Turn(e);
    }
  }

  lemma {:induction false} TurnInsert(e: Edge, es: seq<Edge>)
    ensures Insert(Turn(e), TurnAll(es), EdgeLe) == TurnAll(Insert(e, es, EdgeLe))
  {
    if es != [] && !EdgeLe(e, es[0]) {
      TurnInsert(e, es[1..]);
      assert TurnAll(es)[1..] == TurnAll(es[1..]);
    }
  }

  lemma {:induction false} TurnSort(es: seq<Edge>)
    ensures Sort(TurnAll(es), EdgeLe) == TurnAll(Sort(es, EdgeLe))
  {
    if es != [] {
      TurnSort(es[1..]);
      assert TurnAll(es)[1..] == TurnAll(es[1..]);
      TurnInsert(es[0], Sort(es[1..], EdgeLe));
    }
  }

  lemma {:induction false} TurnWithin(es: seq<Edge>, ids: set<string>)
    ensures EdgesWithin(TurnAll(es), ids) == TurnAll(EdgesWithin(es, ids))
  {
    if es != [] {
      TurnWithin(es[1..], ids);
      assert TurnAll(es)[1..] == TurnAll(es[1..]);
      assert es == [es[0]] + es[1..] && TurnAll(es) == [Turn(es[0])] + TurnAll(es[1..]);
    }
  }

  lemma {:induction false} TurnOut(es: seq<Edge>, reverse: bool, v: string)
    ensures Out(TurnAll(es), !reverse, v) == TurnAll(Out(es, reverse, v))
  {
    if es != [] {
      TurnOut(es[1..], reverse, v);
      assert TurnAll(es)[1..] == TurnAll(es[1..]);
    }
  }

  lemma TurnUnique(es: seq<Edge>)
    requires UniqueEdges(es)
    ensures UniqueEdges(TurnAll(es))
  {
  }

  lemma TurnReady(g: Digraph, es: seq<Edge>, s: Search)
    requires WellFormed(g) && Ready(g, es, s)
    ensures WellFormed(TurnGraph(g)) && Ready(TurnGraph(g), TurnAll(es), TurnSearch(s))
  {
    TurnUnique(g.edges);
    forall e | e in TurnAll(es) ensures e in TurnGraph(g).edges {
      TurnMember(es, Turn(e));
      TurnMember(g.edges, Turn(e));
    }
    forall e | e in TurnAll(s.traversed) ensures e in TurnGraph(g).edges {
      TurnMember(s.traversed, Turn(e));
      TurnMember(g.edges, Turn(e));
    }
  }

  lemma TurnConcat(a: seq<Edge>, b: seq<Edge>)
    ensures TurnAll(a + b) == TurnAll(a) + TurnAll(b)
  {
  }

  lemma TurnVisit(g: Digraph, limit: nat, e: Edge, d: nat, s: Search)
    requires WellFormed(g) && Ready(g, [e], s)
    ensures WellFormed(TurnGraph(g)) && Ready(TurnGraph(g), [Turn(e)], TurnSearch(s))
    ensures Visit(TurnGraph(g), limit, Turn(e), d, TurnSearch(s)) == TurnSearch(Visit(g, limit, e, d, s))
  {
    TurnReady(g, [e], s);
    assert TurnAll([e]) == [Turn(e)];
    TurnMember(s.traversed, e);
    TurnConcat(s.traversed, [e]);
    assert e in [e];
    TraversedIds(g, s, e);
  }

  lemma {:induction false} TurnVisitAll(g: Digraph, limit: nat, es: seq<Edge>, d: nat, s: Search)
    requires WellFormed(g) && Ready(g, es, s)
    ensures WellFormed(TurnGraph(g)) && Ready(TurnGraph(g), TurnAll(es), TurnSearch(s))
    ensures VisitAll(TurnGraph(g), limit, TurnAll(es), d, TurnSearch(s)) == TurnSearch(VisitAll(g, limit, es, d, s))
    decreases |es|
  {
    TurnReady(g, es, s);
    if es != [] {
      TurnVisit(g, limit, es[0], d, s);
      assert TurnAll(es)[1..] == TurnAll(es[1..]);
      TurnVisitAll(g, limit, es[1..], d, Visit(g, limit, es[0], d, s));
    }
  }

  lemma {:induction false} TurnRun(g: Digraph, depth: nat, limit: nat, s: Search)
    requires WellFormed(g) && Ready(g, [], s)
    ensures WellFormed(TurnGraph(g)) && Ready(TurnGraph(g), [], TurnSearch(s))
    ensures Run(TurnGraph(g), depth, limit, TurnSearch(s)) == TurnSearch(Run(g, depth, limit, s))
    decreases g.ids - s.dist.Keys, |s.queue|
  {
    TurnReady(g, [], s);
    if s.queue != [] {
      var cur := s.queue[0];
      var t := Step(g, depth, limit, s);
      if cur.distance != depth {
        TurnOut(g.edges, g.reverse, cur.id);
        TurnVisitAll(g, limit, Out(g.edges, g.reverse, cur.id), cur.distance, Pop(s));
      }
      assert Step(TurnGraph(g), depth, limit, TurnSearch(s)) == TurnSearch(t);
      assert t.dist == s.dist || g.ids - t.dist.Keys < g.ids - s.dist.Keys;
      TurnRun(g, depth, limit, t);
    }
  }

  /** `impact` is `dependencies` on the graph with every edge turned round. */
  lemma ReverseIsTransposed(nodes: seq<Node>, edges: seq<Edge>, root: string, depth: nat, limit: nat, reverse: bool)
    requires UniqueEdges(edges)
    ensures UniqueEdges(TurnAll(edges))
    ensures var r := Traverse(nodes, edges, root, depth, limit, reverse);
            Traverse(nodes, TurnAll(edges), root, depth, limit, !reverse) == Graph(r.nodes, TurnAll(r.edges))
  {
    TurnUnique(edges);
    if root in Ids(nodes) {
      BuildWellFormed(nodes, edges, reverse);
      var g := Build(nodes, edges, reverse);
      TurnSort(edges);
      TurnWithin(Sort(edges, EdgeLe), Ids(nodes));
      assert Build(nodes, TurnAll(edges), !reverse) == TurnGraph(g);
      TurnRun(g, depth, limit, Start(root));
      var s := Run(g, depth, limit, Start(root));
      TurnWithin(s.traversed, s.dist.Keys);
      TurnSort(EdgesWithin(s.traversed, s.dist.Keys));
    }
  }
}
