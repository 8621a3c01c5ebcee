/**
 Which nodes a truncated traversal keeps among those equally far from the root: the ones whose shortest
 walks come first when walks are compared edge id by edge id.
 */
module DiscoveryOrder {
  import opened Collections
  import opened Ordering
  import opened ServiceGraph
  import opened Traversal

  ghost predicate Less(e: Edge, f: Edge) { StrLe(e.id, f.id) && e.id != f.id }

  /** Edges between nodes of the graph that lead from the root to `v`. */
  ghost predicate Walk(ids: set<string>, edges: seq<Edge>, reverse: bool, root: string, walk: seq<Edge>, v: string)
    decreases |walk|
  {
    if walk == [] then v == root
    else
      var e := walk[|walk| - 1];
      && e in edges && e.source in ids && e.target in ids && (if reverse then e.source else e.target) == v
      && Walk(ids, edges, reverse, root, walk[..|walk| - 1], if reverse then e.target else e.source)
  }

  /** Where the walks first differ, the first goes over the smaller edge id. */
  ghost predicate Before(p: seq<Edge>, q: seq<Edge>) {
    exists i :: 0 <= i < |p| && i < |q| && p[..i] == q[..i] && Less(p[i], q[i])
  }

  // ----- the nodes in the order they are met -----

  /** The nodes left by a node met earlier, or by the same node over a smaller id, come first. */
  ghost predicate Earliest(g: Digraph, order: seq<string>, j: nat)
    requires j < |order|
  {
    exists i, e :: 0 <= i < j && e in g.edges && LeadsOn(e, g.reverse, order[i], order[j])
      && MetFirst(g, order, j, i, e)
  }

  ghost predicate MetFirst(g: Digraph, order: seq<string>, j: nat, i: nat, e: Edge)
    requires j < |order|
  {
    forall k, f, w :: 0 <= k < |order| && f in g.edges && LeadsOn(f, g.reverse, order[k], w) && w !in order[..j + 1] ==>
      i < k || (i == k && Less(e, f))
  }

  /** `order` lists the selected nodes by distance; those still queued are its end. */
  ghost predicate Lists(s: Search, order: seq<string>) {
    && Distinct(order) && (forall v :: v in order <==> v in s.dist) && |s.queue| <= |order|
    && (forall i :: 0 <= i < |s.queue| ==> s.queue[i].id == order[|order| - |s.queue| + i])
    && forall i, j :: 0 <= i < j < |order| ==> s.dist[order[i]] <= s.dist[order[j]]
  }

  ghost predicate InMeetingOrder(g: Digraph, root: string, order: seq<string>) {
    forall j :: 0 <= j < |order| && order[j] != root ==> Earliest(g, order, j)
  }

  ghost predicate Ascending(es: seq<Edge>) { forall i, j :: 0 <= i < j < |es| ==> Less(es[i], es[j]) }

  /** Meeting one more node leaves the earlier ones as they were. */
  lemma EarliestStays(g: Digraph, order: seq<string>, w: string, j: nat)
    requires j < |order| && Earliest(g, order, j)
    ensures Earliest(g, order + [w], j)
  {
    var next := order + [w];
    assert next[..j + 1] == order[..j + 1];
    var i, e :| 0 <= i < j && e in g.edges && LeadsOn(e, g.reverse, order[i], order[j]) && MetFirst(g, order, j, i, e);
    assert MetFirst(g, next, j, i, e);
    assert LeadsOn(e, g.reverse, next[i], next[j]);
  }

  /** Among the edges of expanded nodes only those in hand can still lead to a node not selected. */
  lemma OnlyInHand(g: Digraph, depth: nat, limit: nat, s: Search, hand: seq<Edge>, f: Edge, v: string, w: string)
    requires EdgesOk(g, depth, limit, s, hand) && |s.dist| < limit && f in g.edges
    requires LeadsOn(f, g.reverse, v, w) && w !in s.dist && Expanded(s, depth, v)
    ensures f in hand
  {
  }

  lemma NotQueued(s: Search, order: seq<string>, k: nat)
    requires Lists(s, order) && k < |order| - |s.queue|
    ensures !Queued(s, order[k])
  {
    forall i | 0 <= i < |s.queue| ensures s.queue[i].id != order[k] {
      assert order[|order| - |s.queue| + i] != order[k];
    }
  }

  /** A node first met over the next edge in hand is the earliest that could be met. */
  lemma PushEarliest(
    g: Digraph, depth: nat, limit: nat, s: Search, hand: seq<Edge>, order: seq<string>, c: nat, w: string)
    requires EdgesOk(g, depth, limit, s, hand) && Lists(s, order) && |s.dist| < limit
    requires c + |s.queue| + 1 == |order| && s.dist[order[c]] < depth
    requires hand != [] && Ascending(hand) && hand[0] in g.edges && w !in s.dist
    requires forall e :: e in hand ==> Near(e, g.reverse) == order[c]
    requires Far(hand[0], g.reverse) == w
    ensures Earliest(g, order + [w], |order|)
  {
    var e, next := hand[0], order + [w];
    forall k, f, x | 0 <= k < |next| && f in g.edges && LeadsOn(f, g.reverse, next[k], x)
                     && x !in next[..|order| + 1]
      ensures c < k || (c == k && Less(e, f))
    {
      assert next[..|order| + 1] == next;
      if k <= c {
        assert x !in order && x != w;
        NotQueued(s, order, k);
        assert Expanded(s, depth, order[k]);
        OnlyInHand(g, depth, limit, s, hand, f, order[k], x);
        var i :| 0 <= i < |hand| && hand[i] == f;
        assert i != 0;
      }
    }
    assert MetFirst(g, next, |order|, c, e);
    assert LeadsOn(e, g.reverse, next[c], next[|order|]);
  }

  /** What one visit does to the queue and the distances. */
  lemma VisitCases(g: Digraph, root: string, depth: nat, limit: nat, s: Search, level: nat, hand: seq<Edge>)
    requires Inv(g, root, depth, limit, s, level, hand) && hand != [] && Ready(g, hand, s)
    ensures WellFormed(g) && Ready(g, [hand[0]], s)
    ensures var r, w := Visit(g, limit, hand[0], level, s), Far(hand[0], g.reverse);
            && EdgesOk(g, depth, limit, s, hand) && hand[0] in g.edges
            && if w in s.dist || |s.dist| == limit then r.queue == s.queue && r.dist == s.dist
               else && |s.dist| < limit && (forall v :: v in s.dist ==> s.dist[v] <= level + 1)
                    && r.queue == s.queue + [Item(w, level + 1)] && r.dist == s.dist[w := level + 1]
  {
    hide EdgesOk, WellFormed, NearestFirst, LevelComplete, QueueOk, IsDistance, Far;
    assert hand[0] in hand;
  }

  lemma VisitOrder(
    g: Digraph, root: string, depth: nat, limit: nat, s: Search, level: nat, hand: seq<Edge>, order: seq<string>,
    c: nat)
    returns (next: seq<string>)
    requires Inv(g, root, depth, limit, s, level, hand) && hand != [] && Ready(g, hand, s) && level < depth
    requires Lists(s, order) && InMeetingOrder(g, root, order) && c + |s.queue| + 1 == |order|
    requires s.dist[order[c]] == level && Ascending(hand) && forall e :: e in hand ==> Near(e, g.reverse) == order[c]
    ensures var r := Visit(g, limit, hand[0], level, s);
            && Lists(r, next) && InMeetingOrder(g, root, next) && order <= next && c + |r.queue| + 1 == |next|
            && r.dist[next[c]] == level
  {
    hide *;
    VisitCases(g, root, depth, limit, s, level, hand);
    ListsMeans(s, order);
    var w := Far(hand[0], g.reverse);
    var r := Visit(g, limit, hand[0], level, s);
    if w in s.dist || |s.dist| == limit {
      next := order;
      ListsSame(s, r, order);
    } else {
      next := PushOrder(g, root, depth, limit, s, level, hand, order, c, w, r);
    }
  }

  lemma PushOrder(
    g: Digraph, root: string, depth: nat, limit: nat, s: Search, level: nat, hand: seq<Edge>, order: seq<string>,
    c: nat, w: string, r: Search) returns (next: seq<string>)
    requires EdgesOk(g, depth, limit, s, hand) && hand != [] && hand[0] in g.edges && level < depth
    requires Lists(s, order) && InMeetingOrder(g, root, order) && c + |s.queue| + 1 == |order| && order[c] in s.dist
    requires s.dist[order[c]] == level && Ascending(hand) && forall e :: e in hand ==> Near(e, g.reverse) == order[c]
    requires w == Far(hand[0], g.reverse) && w !in s.dist && |s.dist| < limit
    requires (forall v :: v in s.dist ==> s.dist[v] <= level + 1)
    requires r.queue == s.queue + [Item(w, level + 1)] && r.dist == s.dist[w := level + 1]
    ensures Lists(r, next) && InMeetingOrder(g, root, next) && order <= next && c + |r.queue| + 1 == |next|
    ensures next[c] in r.dist && r.dist[next[c]] == level
  {
    hide *;
    next := order + [w];
    PushLists(s, r, order, w, level + 1);
    PushEarliest(g, depth, limit, s, hand, order, c, w);
    OrderGrows(g, root, order, w);
  }

  lemma ListsMeans(s: Search, order: seq<string>)
    requires Lists(s, order)
    ensures forall v :: v in order <==> v in s.dist
  {
  }

  lemma ListsSame(s: Search, r: Search, order: seq<string>)
    requires Lists(s, order) && r.queue == s.queue && r.dist == s.dist
    ensures Lists(r, order)
  {
  }

  lemma OrderGrows(g: Digraph, root: string, order: seq<string>, w: string)
    requires InMeetingOrder(g, root, order) && Earliest(g, order + [w], |order|)
    ensures InMeetingOrder(g, root, order + [w])
  {
    hide Earliest;
    var next := order + [w];
    forall j | 0 <= j < |next| && next[j] != root ensures Earliest(g, next, j) {
      if j < |order| {
        EarliestStays(g, order, w, j);
      }
    }
  }

  lemma PushLists(s: Search, r: Search, order: seq<string>, w: string, d: nat)
    requires Lists(s, order) && w !in s.dist && (forall v :: v in s.dist ==> s.dist[v] <= d)
    requires r.queue == s.queue + [Item(w, d)] && r.dist == s.dist[w := d]
    ensures Lists(r, order + [w])
  {
    var next := order + [w];
    DistinctSnoc(order, w);
    assert forall v :: v in next <==> v in order || v == w;
    PushEnd(s, r, order, w, d);
    PushFarther(s, r, order, w, d);
    hide Distinct;
  }

  lemma PushEnd(s: Search, r: Search, order: seq<string>, w: string, d: nat)
    requires Lists(s, order) && r.queue == s.queue + [Item(w, d)]
    ensures var next := order + [w];
            forall i :: 0 <= i < |r.queue| ==> r.queue[i].id == next[|next| - |r.queue| + i]
  {
    hide Distinct;
    var next := order + [w];
    forall i | 0 <= i < |r.queue| ensures r.queue[i].id == next[|next| - |r.queue| + i] {
      assert i < |s.queue| ==> s.queue[i].id == order[|order| - |s.queue| + i];
    }
  }

  lemma PushFarther(s: Search, r: Search, order: seq<string>, w: string, d: nat)
    requires Lists(s, order) && w !in s.dist && (forall v :: v in s.dist ==> s.dist[v] <= d)
    requires r.dist == s.dist[w := d]
    ensures var next := order + [w];
            && (forall v :: v in next ==> v in r.dist)
            && forall i, j :: 0 <= i < j < |next| ==> r.dist[next[i]] <= r.dist[next[j]]
  {
    hide Distinct;
    var next := order + [w];
    forall i, j | 0 <= i < j < |next| ensures r.dist[next[i]] <= r.dist[next[j]] {
      assert next[i] == order[i] && order[i] in order && order[i] != w;
      assert j < |order| ==> next[j] == order[j] && order[j] in order && order[j] != w;
    }
  }

  lemma {:induction false} VisitAllOrder(
    g: Digraph, root: string, depth: nat, limit: nat, s: Search, level: nat, hand: seq<Edge>, order: seq<string>,
    c: nat)
    returns (next: seq<string>)
    requires Inv(g, root, depth, limit, s, level, hand) && Ready(g, hand, s) && level < depth
    requires Lists(s, order) && InMeetingOrder(g, root, order) && c + |s.queue| + 1 == |order|
    requires s.dist[order[c]] == level && Ascending(hand) && forall e :: e in hand ==> Near(e, g.reverse) == order[c]
    ensures var r := VisitAll(g, limit, hand, level, s); Lists(r, next) && InMeetingOrder(g, root, next)
    decreases |hand|
  {
    VisitAllCons(g, limit, hand, level, s);
    if hand == [] {
      next := order;
    } else {
      assert hand[0] in hand && forall e :: e in hand[1..] ==> e in hand;
      assert Ascending(hand[1..]);
      assert c < |order| - |s.queue| && order[c] in order;
      ListsMeans(s, order);
      hide *;
      NotQueued(s, order, c);
      VisitKeeps(g, root, depth, limit, s, level, hand);
      var met := VisitOrder(g, root, depth, limit, s, level, hand, order, c);
      next := VisitAllOrder(g, root, depth, limit, Visit(g, limit, hand[0], level, s), level, hand[1..], met, c);
    }
  }

  lemma VisitAllCons(g: Digraph, limit: nat, hand: seq<Edge>, d: nat, s: Search)
    requires WellFormed(g) && Ready(g, hand, s)
    ensures if hand == [] then VisitAll(g, limit, hand, d, s) == s
            else && Ready(g, [hand[0]], s) && Ready(g, hand[1..], Visit(g, limit, hand[0], d, s))
                 && VisitAll(g, limit, hand, d, s)
                    == VisitAll(g, limit, hand[1..], d, Visit(g, limit, hand[0], d, s))
  {
    hide WellFormed, Visit;
  }

  lemma {:induction false} OutAscending(es: seq<Edge>, reverse: bool, v: string)
    requires Ascending(es)
    ensures Ascending(Out(es, reverse, v))
  {
    if es != [] {
      OutAscending(es[1..], reverse, v);
      forall e | e in Out(es[1..], reverse, v) ensures Less(es[0], e) {
        var i :| 0 <= i < |es[1..]| && es[1..][i] == e;
        assert es[i + 1] == e;
      }
    }
  }

  /** Taking the first node from the queue. */
  lemma PopOrder(s: Search, order: seq<string>)
    requires Lists(s, order) && s.queue != []
    ensures |s.queue| <= |order| && Lists(Pop(s), order) && order[|order| - |s.queue|] == s.queue[0].id
  {
    var t := Pop(s);
    assert forall i :: 0 <= i < |t.queue| ==> t.queue[i] == s.queue[i + 1];
    assert order[|order| - |s.queue| + 0] == s.queue[0].id;
  }

  lemma PopReady(g: Digraph, s: Search)
    requires WellFormed(g) && Ready(g, [], s) && s.queue != []
    ensures Ready(g, Out(g.edges, g.reverse, s.queue[0].id), Pop(s))
    ensures Pop(s).dist == s.dist && |Pop(s).queue| + 1 == |s.queue|
  {
    hide WellFormed;
  }

  lemma InvWellFormed(g: Digraph, root: string, depth: nat, limit: nat, s: Search, level: nat)
    requires Inv(g, root, depth, limit, s, level, [])
    ensures WellFormed(g)
  {
    hide DistancesOk, QueueOk, LevelComplete, NearestFirst, EdgesOk;
  }

  lemma PopDistance(g: Digraph, root: string, depth: nat, limit: nat, s: Search, level: nat)
    requires Inv(g, root, depth, limit, s, level, []) && s.queue != []
    ensures var cur := s.queue[0]; cur.id in s.dist && s.dist[cur.id] == cur.distance <= depth
  {
    hide EdgesOk, WellFormed, NearestFirst, LevelComplete, IsDistance;
  }

  lemma StepIs(g: Digraph, depth: nat, limit: nat, s: Search)
    requires WellFormed(g) && Ready(g, [], s) && s.queue != []
    ensures var cur := s.queue[0];
            Step(g, depth, limit, s)
            == if cur.distance == depth then Pop(s)
               else VisitAll(g, limit, Out(g.edges, g.reverse, cur.id), cur.distance, Pop(s))
  {
  }

  /** The first node of the queue is ready to be expanded. */
  lemma ExpandReady(g: Digraph, root: string, depth: nat, limit: nat, s: Search, level: nat, order: seq<string>)
    requires Inv(g, root, depth, limit, s, level, []) && s.queue != [] && Ready(g, [], s) && Ascending(g.edges)
    requires Lists(s, order) && s.queue[0].distance != depth
    ensures var cur, t := s.queue[0], Pop(s);
            var out := Out(g.edges, g.reverse, cur.id);
            && cur.distance < depth && Inv(g, root, depth, limit, t, cur.distance, out) && Ready(g, out, t)
            && Ascending(out) && |s.queue| <= |order| && order[|order| - |s.queue|] == cur.id
            && cur.id in t.dist && t.dist[cur.id] == cur.distance && |t.queue| + 1 == |s.queue|
            && forall e :: e in out ==> Near(e, g.reverse) == cur.id
  {
    hide *;
    var cur := s.queue[0];
    InvWellFormed(g, root, depth, limit, s, level);
    PopReady(g, s);
    PopOrder(s, order);
    PopDistance(g, root, depth, limit, s, level);
    HandIs(g, depth, cur);
    PopKeeps(g, root, depth, limit, s, level);
    OutAscending(g.edges, g.reverse, cur.id);
    OutNear(g.edges, g.reverse, cur.id);
  }

  lemma StepOrder(g: Digraph, root: string, depth: nat, limit: nat, s: Search, level: nat, order: seq<string>)
    returns (next: seq<string>)
    requires Inv(g, root, depth, limit, s, level, []) && s.queue != [] && Ready(g, [], s) && Ascending(g.edges)
    requires Lists(s, order) && InMeetingOrder(g, root, order)
    ensures WellFormed(g)
    ensures var r := Step(g, depth, limit, s); Lists(r, next) && InMeetingOrder(g, root, next)
  {
    hide *;
    InvWellFormed(g, root, depth, limit, s, level);
    PopOrder(s, order);
    StepIs(g, depth, limit, s);
    next := order;
    var cur := s.queue[0];
    if cur.distance != depth {
      ExpandReady(g, root, depth, limit, s, level, order);
      var out := Out(g.edges, g.reverse, cur.id);
      next := VisitAllOrder(g, root, depth, limit, Pop(s), cur.distance, out, order, |order| - |s.queue|);
    }
  }

  lemma OutNear(es: seq<Edge>, reverse: bool, v: string)
    ensures forall e :: e in Out(es, reverse, v) ==> Near(e, reverse) == v
  {
  }

  lemma HandIs(g: Digraph, depth: nat, cur: Item)
    requires cur.distance < depth
    ensures Hand(g, depth, cur) == Out(g.edges, g.reverse, cur.id)
  {
  }

  lemma {:induction false} RunOrder(
    g: Digraph, root: string, depth: nat, limit: nat, s: Search, level: nat, order: seq<string>)
    returns (last: seq<string>)
    requires Inv(g, root, depth, limit, s, level, []) && Ready(g, [], s) && Ascending(g.edges)
    requires Lists(s, order) && InMeetingOrder(g, root, order)
    ensures var r := Run(g, depth, limit, s); Lists(r, last) && InMeetingOrder(g, root, last)
    decreases g.ids - s.dist.Keys, |s.queue|
  {
    if s.queue == [] {
      last := order;
    } else {
      var t := Step(g, depth, limit, s);
      var next := StepKeeps(g, root, depth, limit, s, level);
      var met := StepOrder(g, root, depth, limit, s, level, order);
      assert t.dist == s.dist || g.ids - t.dist.Keys < g.ids - s.dist.Keys;
      hide Inv, Lists, InMeetingOrder, Ascending, Step;
      last := RunOrder(g, root, depth, limit, t, next, met);
    }
  }

  // ----- walks -----

  lemma {:induction false} WalkHops(g: Digraph, root: string, walk: seq<Edge>, v: string)
    requires Walk(g.ids, g.edges, g.reverse, root, walk, v)
    ensures Hops(g, root, v, |walk|)
    decreases |walk|
  {
    if walk != [] {
      var e := walk[|walk| - 1];
      var m := if g.reverse then e.target else e.source;
      WalkHops(g, root, walk[..|walk| - 1], m);
      assert LeadsOn(e, g.reverse, m, v);
      assert Joined(g, m, v);
    }
  }

  lemma {:induction false} WalkSame(
    ids: set<string>, a: seq<Edge>, b: seq<Edge>, reverse: bool, root: string, walk: seq<Edge>, v: string)
    requires forall e :: e in b <==> e in a && e.source in ids && e.target in ids
    ensures Walk(ids, a, reverse, root, walk, v) <==> Walk(ids, b, reverse, root, walk, v)
    decreases |walk|
  {
    if walk != [] {
      var e := walk[|walk| - 1];
      WalkSame(ids, a, b, reverse, root, walk[..|walk| - 1], if reverse then e.target else e.source);
    }
  }

  lemma WalkLast(g: Digraph, root: string, walk: seq<Edge>, v: string)
    requires Walk(g.ids, g.edges, g.reverse, root, walk, v) && walk != []
    ensures var e := walk[|walk| - 1];
            && e in g.edges && LeadsOn(e, g.reverse, Near(e, g.reverse), v)
            && Walk(g.ids, g.edges, g.reverse, root, walk[..|walk| - 1], Near(e, g.reverse))
  {
  }

  lemma WalkSnoc(g: Digraph, root: string, walk: seq<Edge>, u: string, e: Edge, v: string)
    requires WellFormed(g) && Walk(g.ids, g.edges, g.reverse, root, walk, u)
    requires e in g.edges && LeadsOn(e, g.reverse, u, v)
    ensures Walk(g.ids, g.edges, g.reverse, root, walk + [e], v)
  {
    var next := walk + [e];
    assert next[..|next| - 1] == walk;
  }

  lemma BeforeSnoc(p: seq<Edge>, e: Edge, q: seq<Edge>, f: Edge)
    requires |p| == |q| && (Before(p, q) || (p == q && Less(e, f)))
    ensures Before(p + [e], q + [f])
  {
    var p', q' := p + [e], q + [f];
    if p == q && Less(e, f) {
      assert p'[..|p|] == q'[..|p|];
      assert p'[|p|] == e && q'[|p|] == f;
    } else {
      var i :| 0 <= i < |p| && i < |q| && p[..i] == q[..i] && Less(p[i], q[i]);
      assert p'[..i] == q'[..i];
      assert p'[i] == p[i] && q'[i] == q[i];
    }
  }

  /** An edge reaches at most one hop further out. */
  lemma EdgeDistance(g: Digraph, root: string, depth: nat, limit: nat, s: Search, level: nat, u: string, v: string)
    requires Inv(g, root, depth, limit, s, level, []) && u in s.dist && v in s.dist && Joined(g, u, v)
    ensures s.dist[v] <= s.dist[u] + 1
  {
    hide NearestFirst, LevelComplete, QueueOk, EdgesOk, WellFormed, Joined;
    assert IsDistance(g, root, u, s.dist[u]) && IsDistance(g, root, v, s.dist[v]);
    assert Hops(g, root, v, s.dist[u] + 1);
  }

  /** A node nearer than a selected one is selected. */
  lemma NearerKept(
    g: Digraph, root: string, depth: nat, limit: nat, s: Search, level: nat, v: string, m: string, k: nat)
    requires Inv(g, root, depth, limit, s, level, []) && v in s.dist && k < s.dist[v] && Hops(g, root, m, k)
    ensures m in s.dist && s.dist[m] <= k
  {
    hide LevelComplete, QueueOk, EdgesOk, WellFormed, Hops;
    if m in s.dist {
      assert IsDistance(g, root, m, s.dist[m]);
    }
  }

  lemma RootDistance(g: Digraph, root: string, depth: nat, limit: nat, s: Search, level: nat, v: string)
    requires Inv(g, root, depth, limit, s, level, []) && v in s.dist
    ensures s.dist[v] == 0 <==> v == root
  {
    hide NearestFirst, LevelComplete, QueueOk, EdgesOk, WellFormed;
    assert IsDistance(g, root, v, s.dist[v]);
    assert Hops(g, root, root, 0);
  }

  /** How a selected node was met, set against any edge to a node met after it or never. */
  lemma MetOver(g: Digraph, root: string, s: Search, order: seq<string>, j: nat, f: Edge, m: string, w: string)
    returns (i: nat, k: nat, e: Edge)
    requires Lists(s, order) && InMeetingOrder(g, root, order) && j < |order| && order[j] != root
    requires m in s.dist && f in g.edges && LeadsOn(f, g.reverse, m, w) && w !in order[..j + 1]
    ensures i < j && k < |order| && order[k] == m && (i < k || (i == k && Less(e, f))) && order[i] in s.dist
    ensures e in g.edges && LeadsOn(e, g.reverse, order[i], order[j]) && Joined(g, order[i], order[j])
    ensures s.dist[order[i]] <= s.dist[m] && (i < k ==> m !in order[..i + 1])
  {
    assert m in order;
    k :| 0 <= k < |order| && order[k] == m;
    assert Earliest(g, order, j);
    i, e :| 0 <= i < j && e in g.edges && LeadsOn(e, g.reverse, order[i], order[j]) && MetFirst(g, order, j, i, e);
    assert order[i] in order;
  }

  /** The last edge of a shortest walk to a node met after `order[j]`, and the edge over which `order[j]` was met. */
  lemma LastEdges(
    g: Digraph, root: string, depth: nat, limit: nat, s: Search, level: nat, order: seq<string>, j: nat, w: string,
    q: seq<Edge>) returns (i: nat, e: Edge, m: string)
    requires Inv(g, root, depth, limit, s, level, []) && Lists(s, order) && InMeetingOrder(g, root, order)
    requires j < |order| && order[j] in s.dist && s.dist[order[j]] == |q| && w !in order[..j + 1]
    requires Walk(g.ids, g.edges, g.reverse, root, q, w)
    ensures q != [] && Walk(g.ids, g.edges, g.reverse, root, q[..|q| - 1], m)
    ensures i < j && e in g.edges && LeadsOn(e, g.reverse, order[i], order[j])
    ensures order[i] in s.dist && s.dist[order[i]] == |q| - 1
    ensures m !in order[..i + 1] || (order[i] == m && Less(e, q[|q| - 1]))
  {
    assert order[j] in order[..j + 1] && (q == [] ==> w == root);
    hide *;
    RootDistance(g, root, depth, limit, s, level, order[j]);
    WalkLast(g, root, q, w);
    var f := q[|q| - 1];
    m := Near(f, g.reverse);
    WalkHops(g, root, q[..|q| - 1], m);
    NearerKept(g, root, depth, limit, s, level, order[j], m, |q| - 1);
    var k;
    i, k, e := MetOver(g, root, s, order, j, f, m, w);
    EdgeDistance(g, root, depth, limit, s, level, order[i], order[j]);
  }

  /** A shortest walk to a node met after `order[j]`, or never, comes after some shortest walk to `order[j]`. */
  lemma {:induction false} WalkBefore(
    g: Digraph, root: string, depth: nat, limit: nat, s: Search, level: nat, order: seq<string>, j: nat, w: string,
    q: seq<Edge>) returns (p: seq<Edge>)
    requires Inv(g, root, depth, limit, s, level, []) && Lists(s, order) && InMeetingOrder(g, root, order)
    requires j < |order| && order[j] in s.dist && s.dist[order[j]] == |q| && w !in order[..j + 1]
    requires Walk(g.ids, g.edges, g.reverse, root, q, w)
    ensures Walk(g.ids, g.edges, g.reverse, root, p, order[j]) && |p| == |q| && Before(p, q)
    decreases |q|
  {
    hide *;
    InvWellFormed(g, root, depth, limit, s, level);
    var i, e, m := LastEdges(g, root, depth, limit, s, level, order, j, w, q);
    var front := q[..|q| - 1];
    var rest := front;
    if m !in order[..i + 1] {
      rest := WalkBefore(g, root, depth, limit, s, level, order, i, m, front);
    }
    WalkSnoc(g, root, rest, order[i], e, order[j]);
    BeforeSnoc(rest, e, front, q[|q| - 1]);
    p := rest + [e];
    assert q == front + [q[|q| - 1]];
  }

  // ----- the truncated traversal -----

  lemma BuildAscending(nodes: seq<Node>, edges: seq<Edge>, reverse: bool)
    requires UniqueEdges(edges)
    ensures Ascending(Build(nodes, edges, reverse).edges)
  {
    BuildWellFormed(nodes, edges, reverse);
    BuildSorted(nodes, edges, reverse);
    hide Build, StrLe;
    UniqueAscending(Build(nodes, edges, reverse).edges);
  }

  lemma UniqueAscending(es: seq<Edge>)
    requires Sorted(es, EdgeLe) && UniqueEdges(es)
    ensures Ascending(es)
  {
    hide StrLe;
  }

  /** The selected nodes in the order in which the queue loop meets them. */
  lemma Meeting(nodes: seq<Node>, edges: seq<Edge>, root: string, depth: nat, limit: nat, reverse: bool)
    returns (s: Search, level: nat, order: seq<string>)
    requires UniqueEdges(edges) && root in Ids(nodes) && limit >= 1
    ensures Inv(Build(nodes, edges, reverse), root, depth, limit, s, level, [])
    ensures Ids(Traverse(nodes, edges, root, depth, limit, reverse).nodes) == s.dist.Keys
    ensures Lists(s, order) && InMeetingOrder(Build(nodes, edges, reverse), root, order)
  {
    var g := Build(nodes, edges, reverse);
    BuildWellFormed(nodes, edges, reverse);
    BuildAscending(nodes, edges, reverse);
    var start := Start(root);
    assert start.queue == [Item(root, 0)] && Lists(start, [root]);
    assert InMeetingOrder(g, root, [root]) by { hide Earliest; }
    StartOk(g, root, depth, limit);
    hide Inv, Lists, InMeetingOrder, WellFormed, Ascending, Build, Run, Start, UniqueEdges, NodesWithin;
    level := RunKeeps(g, root, depth, limit, start, 0);
    order := RunOrder(g, root, depth, limit, start, 0, [root]);
    s := Run(g, depth, limit, start);
    WithinIds(nodes, s.dist.Keys);
  }

  /**
   Among nodes at one distance a truncated traversal keeps those whose shortest walks come first: every
   walk to a node it missed comes after some walk, as long, to each node it kept at that distance.
   */
  lemma TruncationWalkOrder(
    nodes: seq<Node>, edges: seq<Edge>, root: string, depth: nat, limit: nat, reverse: bool,
    kept: string, missed: string, q: seq<Edge>) returns (p: seq<Edge>)
    requires UniqueEdges(edges) && root in Ids(nodes) && limit >= 1
    requires var ids := Ids(Traverse(nodes, edges, root, depth, limit, reverse).nodes); kept in ids && missed !in ids
    requires IsDistance(Build(nodes, edges, reverse), root, kept, |q|)
    requires Walk(Ids(nodes), edges, reverse, root, q, missed)
    ensures Walk(Ids(nodes), edges, reverse, root, p, kept) && |p| == |q| && Before(p, q)
  {
    var g := Build(nodes, edges, reverse);
    BuildEdges(nodes, edges, reverse);
    hide *;
    WalkSame(g.ids, edges, g.edges, reverse, root, q, missed);
    var s, level, order := Meeting(nodes, edges, root, depth, limit, reverse);
    var j := PlaceOf(g, root, depth, limit, s, level, order, kept, missed, |q|);
    p := WalkBefore(g, root, depth, limit, s, level, order, j, missed, q);
    WalkSame(g.ids, edges, g.edges, reverse, root, p, kept);
  }

  lemma PlaceOf(
    g: Digraph, root: string, depth: nat, limit: nat, s: Search, level: nat, order: seq<string>, v: string, w: string,
    d: nat) returns (j: nat)
    requires Inv(g, root, depth, limit, s, level, []) && Lists(s, order)
    requires v in s.dist && w !in s.dist && IsDistance(g, root, v, d)
    ensures j < |order| && order[j] == v && s.dist[v] == d && w !in order[..j + 1]
  {
    hide NearestFirst, LevelComplete, QueueOk, EdgesOk, WellFormed, Hops;
    assert IsDistance(g, root, v, s.dist[v]);
    assert v in order && w !in order;
    j :| 0 <= j < |order| && order[j] == v;
  }

  /** A neighbour of the root that is missed hangs on a greater edge id than some edge to each one that is kept. */
  lemma NeighboursInIdOrder(
    nodes: seq<Node>, edges: seq<Edge>, root: string, depth: nat, limit: nat, reverse: bool,
    kept: string, missed: string, f: Edge) returns (e: Edge)
    requires UniqueEdges(edges) && root in Ids(nodes) && limit >= 1 && kept != root
    requires var ids := Ids(Traverse(nodes, edges, root, depth, limit, reverse).nodes); kept in ids && missed !in ids
    requires exists d :: d in edges && LeadsOn(d, reverse, root, kept)
    requires f in edges && LeadsOn(f, reverse, root, missed) && missed in Ids(nodes)
    ensures e in edges && LeadsOn(e, reverse, root, kept) && StrLe(e.id, f.id) && e.id != f.id
  {
    var d :| d in edges && LeadsOn(d, reverse, root, kept);
    NeighbourDistance(nodes, edges, root, depth, limit, reverse, kept, d);
    assert [f][..0] == [] && Walk(Ids(nodes), edges, reverse, root, [f], missed);
    var p := TruncationWalkOrder(nodes, edges, root, depth, limit, reverse, kept, missed, [f]);
    e := p[0];
    assert p[..0] == [] && Walk(Ids(nodes), edges, reverse, root, [], if reverse then e.target else e.source);
  }

  lemma NeighbourDistance(
    nodes: seq<Node>, edges: seq<Edge>, root: string, depth: nat, limit: nat, reverse: bool, v: string, d: Edge)
    requires UniqueEdges(edges) && root in Ids(nodes) && limit >= 1 && v != root
    requires d in edges && LeadsOn(d, reverse, root, v)
    requires v in Ids(Traverse(nodes, edges, root, depth, limit, reverse).nodes)
    ensures IsDistance(Build(nodes, edges, reverse), root, v, 1)
  {
    var g := Build(nodes, edges, reverse);
    BuildEdges(nodes, edges, reverse);
    TraversalNodes(nodes, edges, root, depth, limit, reverse);
    hide Traverse, Build, Ball, UniqueEdges;
    assert d in g.edges;
    assert Hops(g, root, root, 0) && Joined(g, root, v) && Hops(g, root, v, 1);
  }
}
