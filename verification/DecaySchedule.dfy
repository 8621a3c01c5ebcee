/**
 Which decay schedules keep the pruned search optimal: exactly those that never rise again.

 When a schedule rises from layer k to k + 1 there is a graph whose search meets node u on layer
 k - 1, does not take it up again on layer k, and so misses the better hop out of u on layer k + 1.
 A chain of k - 2 hops leads to the trap: p -> u, p -> q, q -> u, u -> b.
 */
module DecaySchedule {
  import opened Collections
  import opened ImpactSearch
  import opened Wrappers

  ghost predicate NonNegative(c: Settings) { forall d :: d in c.decay ==> c.decay[d] >= 0.0 }

  ghost predicate Rises(c: Settings, k: nat) {
    2 <= k < c.maxDepth && NonNegative(c) && Live(c, k + 1) && Decay(c, k) < Decay(c, k + 1)
  }

  lemma {:induction false} AdjacentRise(c: Settings, i: nat, j: nat) returns (k: nat)
    requires NonNegative(c) && 2 <= i < j <= c.maxDepth && Live(c, j) && Decay(c, i) < Decay(c, j)
    ensures Rises(c, k)
    decreases j
  {
    if Decay(c, j - 1) < Decay(c, j) {
      k := j - 1;
    } else {
      k := AdjacentRise(c, i, j - 1);
    }
  }

  lemma RiseExists(c: Settings) returns (k: nat)
    requires NonNegative(c) && !DecayFalls(c)
    ensures Rises(c, k)
  {
    var i: nat, j: nat :| 2 <= i <= j <= c.maxDepth && Live(c, j) && !(0.0 <= Decay(c, j) <= Decay(c, i));
    k := AdjacentRise(c, i, j);
  }

  // ----- the graph -----

  function Name(m: nat): (r: string)
    ensures |r| == m && forall i :: 0 <= i < m ==> r[i] == 'n'
  {
    seq(m, _ => 'n')
  }

  function Lo(a: string, b: string): Rel { Rel(a, b, "lo") }

  function Chain(m: nat): seq<Rel> {
    if m == 0 then [] else Chain(m - 1) + [Lo(Name(m - 1), Name(m))]
  }

  function Gadget(p: string): seq<Rel> { [Rel(p, "u", "hi"), Lo(p, "q"), Lo("q", "u"), Lo("u", "b")] }

  function Nodes(m: nat): map<string, NodeInfo> {
    if m == 0 then map["u" := INFO, "q" := INFO, "b" := INFO] else Nodes(m - 1)[Name(m) := INFO]
  }

  const INFO: NodeInfo := NodeInfo("", "", None)

  /** The least decay of the first layers. */
  function Least(c: Settings, n: nat): real {
    if n <= 1 then Decay(c, 1) else if Decay(c, n) < Least(c, n - 1) then Decay(c, n) else Least(c, n - 1)
  }

  function Trap(c: Settings, k: nat): Task
    requires k >= 2 && Decay(c, k - 1) != 0.0
  {
    var weights := map["lo" := map[Body := 1.0], "hi" := map[Body := 1.0 + Decay(c, k) / Decay(c, k - 1)]];
    Task(Store(Chain(k - 2) + Gadget(Name(k - 2)), Nodes(k - 2)),
         Settings(weights, c.decay, c.maxDepth, Least(c, k + 1)), Body, Backward)
  }

  lemma {:induction false} LeastBound(c: Settings, n: nat)
    requires NonNegative(c) && n >= 1 && Live(c, n)
    ensures Least(c, n) > 0.0 && forall d: nat :: 1 <= d <= n ==> Least(c, n) <= Decay(c, d)
  {
    if n > 1 {
      LeastBound(c, n - 1);
    }
  }

  lemma {:induction false} NodesHold(m: nat)
    ensures "u" in Nodes(m) && "q" in Nodes(m) && "b" in Nodes(m)
    ensures forall i: nat :: 1 <= i <= m ==> Name(i) in Nodes(m)
  {
    if m > 0 {
      NodesHold(m - 1);
    }
  }

  lemma TrapSettings(c: Settings, k: nat)
    requires Rises(c, k)
    ensures Decay(c, k - 1) != 0.0
    ensures var t := Trap(c, k);
            && t.settings.maxDepth == c.maxDepth && t.settings.decay == c.decay && t.settings.threshold > 0.0
            && "u" in t.store.nodes && "q" in t.store.nodes && "b" in t.store.nodes
            && forall i: nat :: 1 <= i <= k - 2 ==> Name(i) in t.store.nodes
  {
    LeastBound(c, k + 1);
    NodesHold(k - 2);
    hide Least, Chain, Gadget, Name, Nodes;
  }

  /** A plain hop counts on every layer down to k + 1. */
  lemma LoHop(c: Settings, k: nat, a: string, b: string, d: nat)
    requires Rises(c, k) && 1 <= d <= k + 1
    ensures Decay(c, k - 1) != 0.0
    ensures var t, r := Trap(c, k), Lo(a, b);
            && FarEnd(t.direction, r) == b && NearEnd(t.direction, r) == a
            && HopScore(t, r, d) == Decay(c, d) == Decay(t.settings, d) && Decay(c, d) > 0.0
            && Decay(c, d) >= t.settings.threshold
  {
    LeastBound(c, k + 1);
    assert Lower("lo") == "lo";
    hide Least, Chain, Gadget, Name, Nodes;
  }

  lemma HiHop(c: Settings, k: nat, a: string, b: string)
    requires Rises(c, k)
    ensures Decay(c, k - 1) != 0.0
    ensures var t, r := Trap(c, k), Rel(a, b, "hi");
            && FarEnd(t.direction, r) == b
            && HopScore(t, r, k - 1) == Decay(c, k - 1) + Decay(c, k) >= t.settings.threshold
  {
    LeastBound(c, k + 1);
    var x, y := Decay(c, k - 1), Decay(c, k);
    assert (1.0 + y / x) * x == x + y;
    assert Lower("hi") == "hi";
    hide Least, Chain, Gadget, Name, Nodes;
  }

  // ----- its hops -----

  lemma FilterOne(r: Rel, f: Rel -> bool)
    ensures Filter([r], f) == if f(r) then [r] else []
  {
  }

  lemma {:induction false} ChainFilter(n: nat, id: string, f: Rel -> bool)
    requires forall r :: f(r) <==> r.source == id
    ensures Filter(Chain(n), f) == if |id| < n && id == Name(|id|) then [Lo(id, Name(|id| + 1))] else []
  {
    if n > 0 {
      ChainFilter(n - 1, id, f);
      FilterConcat(Chain(n - 1), [Lo(Name(n - 1), Name(n))], f);
      FilterOne(Lo(Name(n - 1), Name(n)), f);
      hide Filter;
    }
  }

  lemma GadgetFilter(p: string, id: string, f: Rel -> bool)
    requires forall r :: f(r) <==> r.source == id
    requires p != "u" && p != "q"
    ensures Filter(Gadget(p), f)
         == if id == p then [Rel(p, "u", "hi"), Lo(p, "q")] else if id == "q" then [Lo("q", "u")]
            else if id == "u" then [Lo("u", "b")] else []
  {
    var g := Gadget(p);
    assert g == [g[0], g[1]] + [g[2], g[3]] && [g[0], g[1]] == [g[0]] + [g[1]] && [g[2], g[3]] == [g[2]] + [g[3]];
    hide Filter, Gadget;
    FilterConcat([g[0], g[1]], [g[2], g[3]], f);
    FilterConcat([g[0]], [g[1]], f);
    FilterConcat([g[2]], [g[3]], f);
    FilterOne(g[0], f);
    FilterOne(g[1], f);
    FilterOne(g[2], f);
    FilterOne(g[3], f);
  }

  lemma TrapIncident(c: Settings, k: nat, id: string)
    requires k >= 2 && Decay(c, k - 1) != 0.0
    ensures var p := Name(k - 2);
            Incident(Trap(c, k), id)
            == if id == p then [Rel(p, "u", "hi"), Lo(p, "q")] else if id == "q" then [Lo("q", "u")]
               else if id == "u" then [Lo("u", "b")]
               else if |id| < k - 2 && id == Name(|id|) then [Lo(id, Name(|id| + 1))] else []
  {
    var t := Trap(c, k);
    var f := (r: Rel) => NearEnd(t.direction, r) == id;
    var n: nat := k - 2;
    var p := Name(n);
    assert Incident(t, id) == Filter(Chain(n) + Gadget(p), f);
    assert forall r :: f(r) <==> r.source == id;
    hide *;
    ShortNames(n);
    ShortNames(|id|);
    ChainFilter(n, id, f);
    GadgetFilter(p, id, f);
    FilterConcat(Chain(n), Gadget(p), f);
  }

  lemma ShortNames(m: nat)
    ensures Name(m) != "u" && Name(m) != "q" && Name(m) != "b"
  {
    if m == 1 {
      assert Name(m)[0] == 'n';
    }
  }

  lemma ChainIncident(c: Settings, k: nat, m: nat)
    requires k >= 2 && Decay(c, k - 1) != 0.0 && m < k - 2
    ensures Incident(Trap(c, k), Name(m)) == [Lo(Name(m), Name(m + 1))]
  {
    TrapIncident(c, k, Name(m));
    ShortNames(m);
    hide Incident, Trap, Name, Lo;
  }

  lemma GadgetIncident(c: Settings, k: nat)
    requires k >= 2 && Decay(c, k - 1) != 0.0
    ensures var t, p := Trap(c, k), Name(k - 2);
            && Incident(t, p) == [Rel(p, "u", "hi"), Lo(p, "q")] && Incident(t, "q") == [Lo("q", "u")]
            && Incident(t, "u") == [Lo("u", "b")] && Incident(t, "b") == []
  {
    TrapIncident(c, k, Name(k - 2));
    TrapIncident(c, k, "q");
    TrapIncident(c, k, "u");
    TrapIncident(c, k, "b");
    ShortNames(k - 2);
    ShortNames(1);
    hide Incident, Trap, Name, Lo;
  }

  /** A hop that counts is taken unless its end is already as good. */
  lemma TakenHop(t: Task, source: string, depth: nat, path: seq<string>, r: Rel, p: Progress)
    requires FarEnd(t.direction, r) != source && FarEnd(t.direction, r) in t.store.nodes
    requires HopScore(t, r, depth) >= t.settings.threshold
    ensures var id := FarEnd(t.direction, r);
            var score := HopScore(t, r, depth);
            var newPath := path + [Lower(r.relType)];
            var i := Record(t, source, id, t.store.nodes[id], score, depth, newPath);
            && i.nodeId == id && i.score == score
            && Hop(t, source, depth, path, r, p)
               == if id in p.visited && score <= p.visited[id] then p
                  else Progress(p.visited[id := score], Put(p.next, id, Entry(score, newPath)), p.impacts + [i])
  {
  }

  lemma HopAllOne(t: Task, source: string, depth: nat, path: seq<string>, r: Rel, p: Progress)
    ensures HopAll(t, source, depth, path, [r], p) == Hop(t, source, depth, path, r, p)
  {
    assert [r][1..] == [];
  }

  lemma HopAllTwo(t: Task, source: string, depth: nat, path: seq<string>, r: Rel, r': Rel, p: Progress)
    ensures HopAll(t, source, depth, path, [r, r'], p)
         == Hop(t, source, depth, path, r', Hop(t, source, depth, path, r, p))
  {
    assert [r, r'][1..] == [r'];
    HopAllOne(t, source, depth, path, r', Hop(t, source, depth, path, r, p));
    hide Hop;
  }

  lemma ExpandAllCons(t: Task, source: string, depth: nat, frontier: Layer, id: string, rest: seq<string>, p: Progress)
    requires id in frontier.entries && forall v :: v in rest ==> v in frontier.entries
    ensures var q := HopAll(t, source, depth, frontier.entries[id].path, Incident(t, id), p);
            ExpandAll(t, source, depth, frontier, [id] + rest, p) == ExpandAll(t, source, depth, frontier, rest, q)
    ensures ExpandAll(t, source, depth, frontier, [], p) == p
  {
    assert ([id] + rest)[1..] == rest;
  }

  /** A layer that reaches further hands over to the next. */
  lemma SearchStep(
    t: Task, source: string, depth: nat, frontier: Layer, visited: map<string, real>, impacts: seq<ImpactedNode>,
    p: Progress)
    requires LayerOk(frontier) && depth <= t.settings.maxDepth
    requires Decay(t.settings, depth) != 0.0 && Decay(t.settings, depth + 1) != 0.0
    requires p == ExpandAll(t, source, depth, frontier, frontier.order, Progress(visited, EMPTY_LAYER, impacts))
    requires p.next.order != []
    ensures LayerOk(p.next)
    ensures SearchFrom(t, source, depth, frontier, visited, impacts)
         == SearchFrom(t, source, depth + 1, p.next, p.visited, p.impacts)
  {
    ExpandAllLayerOk(t, source, depth, frontier, frontier.order, Progress(visited, EMPTY_LAYER, impacts));
    hide ExpandAll;
  }

  // ----- the search along the chain -----

  function One(id: string, e: Entry): (l: Layer)
    ensures LayerOk(l)
  {
    Layer([id], map[id := e])
  }

  /** Nothing beyond the first `m` chain nodes has been met. */
  ghost predicate OnChain(m: nat, visited: map<string, real>, impacts: seq<ImpactedNode>) {
    && (forall id :: id in visited ==> |id| <= m && id == Name(|id|))
    && (forall i :: i in impacts ==> i.nodeId != "b")
  }

  lemma PutFirst(id: string, e: Entry)
    ensures Put(EMPTY_LAYER, id, e) == One(id, e) && One(id, e).order == [id]
  {
  }

  lemma PutSecond(id: string, e: Entry, id': string, e': Entry)
    requires id != id'
    ensures Put(Put(EMPTY_LAYER, id, e), id', e').order == [id, id'] && LayerOk(Put(Put(EMPTY_LAYER, id, e), id', e'))
  {
  }

  lemma ExpandOne(t: Task, source: string, depth: nat, id: string, e: Entry, p: Progress)
    ensures id in One(id, e).order && forall v :: v in One(id, e).order ==> v in One(id, e).entries
    ensures ExpandAll(t, source, depth, One(id, e), One(id, e).order, p)
         == HopAll(t, source, depth, e.path, Incident(t, id), p)
  {
    ExpandAllCons(t, source, depth, One(id, e), id, [], p);
    assert [id] + [] == One(id, e).order;
    hide HopAll, Incident;
  }

  lemma NextIsNew(m: nat, visited: map<string, real>, impacts: seq<ImpactedNode>, i: ImpactedNode, score: real)
    requires OnChain(m, visited, impacts) && i.nodeId == Name(m + 1)
    ensures Name(m + 1) !in visited && Name(m + 1) != ""
    ensures OnChain(m + 1, visited[Name(m + 1) := score], impacts + [i])
  {
    ShortNames(m + 1);
  }

  lemma ChainStep(c: Settings, k: nat, m: nat, e: Entry, visited: map<string, real>, impacts: seq<ImpactedNode>)
    returns (e': Entry, visited': map<string, real>, impacts': seq<ImpactedNode>)
    requires Rises(c, k) && m < k - 2 && OnChain(m, visited, impacts)
    ensures Decay(c, k - 1) != 0.0 && OnChain(m + 1, visited', impacts')
    ensures SearchFrom(Trap(c, k), "", m + 1, One(Name(m), e), visited, impacts)
         == SearchFrom(Trap(c, k), "", m + 2, One(Name(m + 1), e'), visited', impacts')
  {
    TrapSettings(c, k);
    ChainIncident(c, k, m);
    var t, id, next := Trap(c, k), Name(m), Name(m + 1);
    assert m + 1 <= c.maxDepth;
    hide *;
    var r, start, layer := Lo(id, next), Progress(visited, EMPTY_LAYER, impacts), One(id, e);
    LoHop(c, k, id, next, m + 1);
    LoHop(c, k, id, next, m + 2);
    var score, path := Decay(c, m + 1), e.path + [Lower(r.relType)];
    var i := Record(t, "", next, t.store.nodes[next], score, m + 1, path);
    RecordIds(t, "", next, score, m + 1, path);
    NextIsNew(m, visited, impacts, i, score);
    TakenHop(t, "", m + 1, e.path, r, start);
    ExpandOne(t, "", m + 1, id, e, start);
    HopAllOne(t, "", m + 1, e.path, r, start);
    e' := Entry(score, path);
    PutFirst(next, e');
    visited', impacts' := visited[next := score], impacts + [i];
    SearchStep(t, "", m + 1, layer, visited, impacts, Progress(visited', One(next, e'), impacts'));
  }

  lemma ChainStart()
    ensures FirstLayer("") == One("", Entry(1.0, [])) && Name(0) == "" && OnChain(0, map["" := 1.0], [])
    ensures forall t :: Search(t, "") == SearchFrom(t, "", 1, FirstLayer(""), map["" := 1.0], [])
  {
    hide SearchFrom;
  }

  lemma {:induction false} ChainPhase(c: Settings, k: nat, m: nat)
    returns (e: Entry, visited: map<string, real>, impacts: seq<ImpactedNode>)
    requires Rises(c, k) && m <= k - 2
    ensures Decay(c, k - 1) != 0.0 && OnChain(m, visited, impacts)
    ensures Search(Trap(c, k), "") == SearchFrom(Trap(c, k), "", m + 1, One(Name(m), e), visited, impacts)
  {
    assert k >= 2;
    hide *;
    TrapSettings(c, k);
    if m == 0 {
      ChainStart();
      e, visited, impacts := Entry(1.0, []), map["" := 1.0], [];
    } else {
      e, visited, impacts := ChainPhase(c, k, m - 1);
      e, visited, impacts := ChainStep(c, k, m - 1, e, visited, impacts);
    }
  }

  // ----- the search in the trap -----

  lemma GadgetIsNew(m: nat, visited: map<string, real>, impacts: seq<ImpactedNode>)
    requires OnChain(m, visited, impacts)
    ensures "u" !in visited && "q" !in visited && "b" !in visited
    ensures forall i :: i in impacts ==> i.nodeId != "b"
  {
    ShortNames(1);
  }

  /** Two hops to u and q, both new. */
  lemma TwoHops(
    t: Task, d: nat, path: seq<string>, hi: Rel, lo: Rel, visited: map<string, real>, impacts: seq<ImpactedNode>)
    returns (q: Progress)
    requires FarEnd(t.direction, hi) == "u" && FarEnd(t.direction, lo) == "q"
    requires "u" in t.store.nodes && "q" in t.store.nodes && "u" !in visited && "q" !in visited && "b" !in visited
    requires HopScore(t, hi, d) >= t.settings.threshold && HopScore(t, lo, d) >= t.settings.threshold
    requires forall i :: i in impacts ==> i.nodeId != "b"
    ensures q == HopAll(t, "", d, path, [hi, lo], Progress(visited, EMPTY_LAYER, impacts))
    ensures LayerOk(q.next) && q.next.order == ["u", "q"]
    ensures "u" in q.visited && q.visited["u"] == HopScore(t, hi, d) && "b" !in q.visited
    ensures forall i :: i in q.impacts ==> i.nodeId != "b"
  {
    hide *;
    var start := Progress(visited, EMPTY_LAYER, impacts);
    TakenHop(t, "", d, path, hi, start);
    var h := Hop(t, "", d, path, hi, start);
    TakenHop(t, "", d, path, lo, h);
    q := Hop(t, "", d, path, lo, h);
    HopAllTwo(t, "", d, path, hi, lo, start);
    PutSecond("u", Entry(HopScore(t, hi, d), path + [Lower(hi.relType)]),
              "q", Entry(HopScore(t, lo, d), path + [Lower(lo.relType)]));
  }

  /** The trap's first layer meets u and q. */
  lemma TrapFirst(c: Settings, k: nat, e: Entry, visited: map<string, real>, impacts: seq<ImpactedNode>)
    returns (q: Progress)
    requires Rises(c, k) && OnChain(k - 2, visited, impacts)
    ensures Decay(c, k - 1) != 0.0 && LayerOk(q.next) && q.next.order == ["u", "q"]
    ensures "u" in q.visited && q.visited["u"] == Decay(c, k - 1) + Decay(c, k) && "b" !in q.visited
    ensures forall i :: i in q.impacts ==> i.nodeId != "b"
    ensures SearchFrom(Trap(c, k), "", k - 1, One(Name(k - 2), e), visited, impacts)
         == SearchFrom(Trap(c, k), "", k, q.next, q.visited, q.impacts)
  {
    assert 2 <= k <= c.maxDepth;
    hide *;
    var d: nat, n: nat := k - 1, k - 2;
    TrapSettings(c, k);
    GadgetIncident(c, k);
    GadgetIsNew(n, visited, impacts);
    var t, p := Trap(c, k), Name(n);
    var hi, lo, start, layer := Rel(p, "u", "hi"), Lo(p, "q"), Progress(visited, EMPTY_LAYER, impacts), One(p, e);
    HiHop(c, k, p, "u");
    LoHop(c, k, p, "q", d);
    LoHop(c, k, p, "q", k);
    q := TwoHops(t, d, e.path, hi, lo, visited, impacts);
    ExpandOne(t, "", d, p, e, start);
    SearchStep(t, "", d, layer, visited, impacts, q);
  }

  /** The second layer meets b from u, and leaves u alone when it comes from q. */
  lemma TrapSecond(c: Settings, k: nat, layer: Layer, visited: map<string, real>, impacts: seq<ImpactedNode>)
    returns (e: Entry, q: Progress)
    requires Rises(c, k) && LayerOk(layer) && layer.order == ["u", "q"]
    requires "u" in visited && visited["u"] == Decay(c, k - 1) + Decay(c, k) && "b" !in visited
    requires forall i :: i in impacts ==> i.nodeId != "b"
    ensures Decay(c, k - 1) != 0.0 && q.next == One("b", e)
    ensures forall i :: i in q.impacts && i.nodeId == "b" ==> i.score == Decay(c, k)
    ensures SearchFrom(Trap(c, k), "", k, layer, visited, impacts)
         == SearchFrom(Trap(c, k), "", k + 1, q.next, q.visited, q.impacts)
  {
    TrapSettings(c, k);
    GadgetIncident(c, k);
    var t := Trap(c, k);
    assert "u" in layer.order && "q" in layer.order;
    assert k <= c.maxDepth && Decay(c, k - 1) >= 0.0;
    hide *;
    var ub, qu, start := Lo("u", "b"), Lo("q", "u"), Progress(visited, EMPTY_LAYER, impacts);
    var fromU, fromQ := layer.entries["u"].path, layer.entries["q"].path;
    LoHop(c, k, "u", "b", k);
    LoHop(c, k, "q", "u", k);
    LoHop(c, k, "q", "u", k + 1);
    TakenHop(t, "", k, fromU, ub, start);
    q := Hop(t, "", k, fromU, ub, start);
    TakenHop(t, "", k, fromQ, qu, q);
    HopAllOne(t, "", k, fromU, ub, start);
    HopAllOne(t, "", k, fromQ, qu, q);
    ExpandAllCons(t, "", k, layer, "u", ["q"], start);
    ExpandAllCons(t, "", k, layer, "q", [], q);
    assert ["u"] + ["q"] == layer.order && ["q"] + [] == ["q"];
    e := Entry(HopScore(t, ub, k), fromU + [Lower(ub.relType)]);
    PutFirst("b", e);
    SearchStep(t, "", k, layer, visited, impacts, q);
  }

  lemma SearchEnds(
    t: Task, source: string, depth: nat, frontier: Layer, visited: map<string, real>, impacts: seq<ImpactedNode>)
    requires LayerOk(frontier)
    requires ExpandAll(t, source, depth, frontier, frontier.order, Progress(visited, EMPTY_LAYER, impacts))
          == Progress(visited, EMPTY_LAYER, impacts)
    ensures SearchFrom(t, source, depth, frontier, visited, impacts) == impacts
  {
    hide ExpandAll;
  }

  /** Nothing leads out of b. */
  lemma TrapThird(c: Settings, k: nat, e: Entry, visited: map<string, real>, impacts: seq<ImpactedNode>)
    requires Rises(c, k)
    ensures Decay(c, k - 1) != 0.0
    ensures SearchFrom(Trap(c, k), "", k + 1, One("b", e), visited, impacts) == impacts
  {
    TrapSettings(c, k);
    GadgetIncident(c, k);
    var t, layer, last := Trap(c, k), One("b", e), Progress(visited, EMPTY_LAYER, impacts);
    assert HopAll(t, "", k + 1, e.path, [], last) == last;
    hide *;
    ExpandOne(t, "", k + 1, "b", e, last);
    SearchEnds(t, "", k + 1, layer, visited, impacts);
  }

  lemma TrapRecords(c: Settings, k: nat)
    requires Rises(c, k)
    ensures Decay(c, k - 1) != 0.0
    ensures forall i :: i in Search(Trap(c, k), "") && i.nodeId == "b" ==> i.score == Decay(c, k)
  {
    var n: nat := k - 2;
    hide *;
    var e, visited, impacts := ChainPhase(c, k, n);
    var q := TrapFirst(c, k, e, visited, impacts);
    var e', q' := TrapSecond(c, k, q.next, q.visited, q.impacts);
    TrapThird(c, k, e', q'.visited, q'.impacts);
  }

  // ----- the walk that is lost -----

  lemma WalkOn(t: Task, source: string, rs: seq<Rel>, r: Rel)
    requires Admissible(t, source, rs) && r in t.store.relations && NearEnd(t.direction, r) == EndOf(t, source, rs)
    requires FarEnd(t.direction, r) != source && FarEnd(t.direction, r) in t.store.nodes
    requires HopScore(t, r, |rs| + 1) >= t.settings.threshold
    ensures Admissible(t, source, rs + [r]) && EndOf(t, source, rs + [r]) == FarEnd(t.direction, r)
    ensures Worth(t, rs + [r]) == HopScore(t, r, |rs| + 1)
  {
    assert (rs + [r])[..|rs|] == rs;
  }

  lemma {:induction false} ChainWalk(c: Settings, k: nat, m: nat)
    requires Rises(c, k) && m <= k - 2
    ensures Decay(c, k - 1) != 0.0
    ensures var t := Trap(c, k); Admissible(t, "", Chain(m)) && EndOf(t, "", Chain(m)) == Name(m) && |Chain(m)| == m
  {
    assert k >= 2;
    hide *;
    TrapSettings(c, k);
    if m == 0 {
      NoWalk(Trap(c, k));
    } else {
      ChainWalk(c, k, m - 1);
      ChainWalkStep(c, k, m - 1);
    }
  }

  lemma ChainWalkStep(c: Settings, k: nat, m: nat)
    requires Rises(c, k) && m + 1 <= k - 2 && Decay(c, k - 1) != 0.0
    requires var t := Trap(c, k); Admissible(t, "", Chain(m)) && EndOf(t, "", Chain(m)) == Name(m) && |Chain(m)| == m
    ensures var t, next := Trap(c, k), Chain(m + 1);
            Admissible(t, "", next) && EndOf(t, "", next) == Name(m + 1) && |next| == m + 1
  {
    hide *;
    TrapSettings(c, k);
    ChainRelation(c, k, m + 1);
    LoHop(c, k, Name(m), Name(m + 1), m + 1);
    WalkOn(Trap(c, k), "", Chain(m), Lo(Name(m), Name(m + 1)));
  }

  lemma NoWalk(t: Task)
    ensures Chain(0) == [] && Name(0) == "" && Admissible(t, "", Chain(0)) && EndOf(t, "", Chain(0)) == Name(0)
  {
  }

  lemma ChainRelation(c: Settings, k: nat, m: nat)
    requires k >= 2 && Decay(c, k - 1) != 0.0 && 1 <= m <= k - 2
    ensures Lo(Name(m - 1), Name(m)) in Trap(c, k).store.relations && Name(m) != ""
    ensures Chain(m) == Chain(m - 1) + [Lo(Name(m - 1), Name(m))]
  {
    ChainMember(k - 2, m);
    assert Trap(c, k).store.relations == Chain(k - 2) + Gadget(Name(k - 2));
    assert |Name(m)| == m;
    hide Gadget, Name, Lo;
  }

  lemma {:induction false} ChainMember(n: nat, m: nat)
    requires 1 <= m <= n
    ensures Lo(Name(m - 1), Name(m)) in Chain(n)
  {
    if m < n {
      ChainMember(n - 1, m);
    }
  }

  lemma GadgetMembers(c: Settings, k: nat)
    requires k >= 2 && Decay(c, k - 1) != 0.0
    ensures var rs, p := Trap(c, k).store.relations, Name(k - 2);
            Lo(p, "q") in rs && Lo("q", "u") in rs && Lo("u", "b") in rs
  {
    var p := Name(k - 2);
    var g := Gadget(p);
    assert g[1] == Lo(p, "q") && g[2] == Lo("q", "u") && g[3] == Lo("u", "b");
    assert g[1] in g && g[2] in g && g[3] in g;
    assert Trap(c, k).store.relations == Chain(k - 2) + g;
    hide *;
  }

  lemma LostWalk(c: Settings, k: nat) returns (rs: seq<Rel>)
    requires Rises(c, k)
    ensures Decay(c, k - 1) != 0.0 && |rs| == k + 1
    ensures var t := Trap(c, k); Admissible(t, "", rs) && EndOf(t, "", rs) == "b" && Worth(t, rs) == Decay(c, k + 1)
  {
    assert k >= 2;
    hide *;
    TrapSettings(c, k);
    GadgetMembers(c, k);
    var t, n: nat := Trap(c, k), k - 2;
    ChainWalk(c, k, n);
    var p := Name(n);
    var pq, qu, ub := Lo(p, "q"), Lo("q", "u"), Lo("u", "b");
    LoHop(c, k, p, "q", n + 1);
    LoHop(c, k, "q", "u", n + 2);
    LoHop(c, k, "u", "b", n + 3);
    WalkOn(t, "", Chain(n), pq);
    WalkOn(t, "", Chain(n) + [pq], qu);
    WalkOn(t, "", Chain(n) + [pq] + [qu], ub);
    rs := Chain(n) + [pq] + [qu] + [ub];
  }

  /** A schedule that rises from layer k to layer k + 1 makes the search lose a walk in its trap. */
  lemma RisingScheduleLosesWalk(c: Settings, k: nat)
    requires Rises(c, k)
    ensures Decay(c, k - 1) != 0.0
    ensures var t := Trap(c, k);
            && t.settings.decay == c.decay && t.settings.maxDepth == c.maxDepth && t.settings.threshold > 0.0
            && !Optimal(t, "")
  {
    TrapSettings(c, k);
    TrapRecords(c, k);
    var rs := LostWalk(c, k);
    hide Trap, Search, Admissible, Decay, EndOf, Worth;
    assert rs != [] && |rs| <= c.maxDepth;
  }

  /**
   With non-negative decays, the pruned search is optimal for every graph, table of weights and
   positive threshold exactly when the schedule, from the second layer to its first zero, never rises.
   */
  lemma OptimalExactlyWhenDecayFalls(c: Settings)
    requires NonNegative(c)
    ensures DecayFalls(c) <==>
              forall t: Task, source ::
                t.settings.decay == c.decay && t.settings.maxDepth == c.maxDepth && t.settings.threshold > 0.0 ==>
                  Optimal(t, source)
  {
    if DecayFalls(c) {
      forall t: Task, source
        | t.settings.decay == c.decay && t.settings.maxDepth == c.maxDepth && t.settings.threshold > 0.0
        ensures Optimal(t, source)
      {
        assert forall d: nat :: Decay(t.settings, d) == Decay(c, d);
        assert forall d: nat :: Live(t.settings, d) <==> Live(c, d);
        hide Optimal, Search;
        SearchOptimal(t, source);
      }
    } else {
      var k := RiseExists(c);
      hide *;
      RisingScheduleLosesWalk(c, k);
    }
  }
}
