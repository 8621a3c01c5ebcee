/**
 Community detection by label propagation: nodes are visited in id order and each takes the label
 most common among its neighbours, at once.
 */
module LabelPropagation {
  import opened Collections
  import opened EntityGraph
  import opened Ordering

  type Labels = map<string, string>

  // ----- sorted sets -----

  lemma LeastExists(s: set<string>) returns (least: string)
    requires s != {}
    ensures least in s && forall x :: x in s ==> StrLe(least, x)
    decreases s
  {
    var x :| x in s;
    if s == {x} {
      StrLeTotal(x, x);
      least := x;
    } else {
      var rest := LeastExists(s - {x});
      StrLeTotal(x, rest);
      StrLeTotal(x, x);
      least := if StrLe(x, rest) then x else rest;
      forall y | y in s ensures StrLe(least, y) {
        if y != x && StrLe(x, rest) { StrLeTransitive(x, rest, y); }
      }
    }
  }

  lemma LeastIs(s: set<string>)
    requires s != {}
    ensures exists least :: least in s && forall x :: x in s ==> StrLe(least, x)
  {
    var least := LeastExists(s);
  }

  function Least(s: set<string>): (least: string)
    requires s != {}
    ensures least in s && forall x :: x in s ==> StrLe(least, x)
  {
    LeastIs(s);
    assert forall a, b :: a in s && b in s && StrLe(a, b) && StrLe(b, a) ==> a == b by { StrLeIsOrder(); }
    var least :| least in s && forall x :: x in s ==> StrLe(least, x);
    least
  }

  /** `sorted(s)` on a set. */
  function SortSet(s: set<string>): (r: seq<string>)
    ensures Distinct(r) && |r| == |s| && forall x :: x in r <==> x in s
    decreases s
  {
    if s == {} then []
    else
      var least := Least(s);
      [least] + SortSet(s - {least})
  }

  // ----- one update -----

  function LabelsOf(labels: Labels, nodes: seq<string>): (r: seq<string>)
    requires forall v :: v in nodes ==> v in labels
    ensures |r| == |nodes| && forall i :: 0 <= i < |r| ==> r[i] == labels[nodes[i]]
  {
    seq(|nodes|, i requires 0 <= i < |nodes| => labels[nodes[i]])
  }

  function Count(s: seq<string>, x: string): nat { multiset(s)[x] }

  /** The best of `best` and the labels from place `i` on; an equal count does not displace an earlier label. */
  function MostCommonFrom(s: seq<string>, i: nat, best: string): (r: string)
    requires i <= |s| && best in s
    ensures r in s && Count(s, best) <= Count(s, r) && forall j :: i <= j < |s| ==> Count(s, s[j]) <= Count(s, r)
    ensures r == best || exists k :: i <= k < |s| && s[k] == r && Count(s, best) < Count(s, r)
                                     && forall j :: i <= j < k ==> Count(s, s[j]) < Count(s, r)
    decreases |s| - i
  {
    if i == |s| then best
    else MostCommonFrom(s, i + 1, if Count(s, s[i]) > Count(s, best) then s[i] else best)
  }

  /** `Counter(s).most_common(1)[0][0]`. */
  function MostCommon(s: seq<string>): (r: string)
    requires s != []
    ensures r in s && forall x :: Count(s, x) <= Count(s, r)
  {
    var r := MostCommonFrom(s, 0, s[0]);
    assert forall x :: x in s ==> Count(s, x) <= Count(s, r);
    assert forall x :: x !in s ==> Count(s, x) == 0;
    r
  }

  ghost predicate GraphOk(adj: Adjacency, labels: Labels) {
    Symmetric(adj) && labels.Keys == adj.Keys
  }

  function Update(adj: Adjacency, labels: Labels, v: string): (r: Labels)
    requires GraphOk(adj, labels) && v in adj
    ensures r.Keys == labels.Keys && forall u :: u in labels && u != v ==> r[u] == labels[u]
  {
    if adj[v] == {} then labels else labels[v := MostCommon(LabelsOf(labels, SortSet(adj[v])))]
  }

  function Sweep(adj: Adjacency, order: seq<string>, labels: Labels): (r: Labels)
    requires GraphOk(adj, labels) && forall v :: v in order ==> v in adj
    ensures r.Keys == labels.Keys && forall u :: u in labels && u !in order ==> r[u] == labels[u]
    decreases |order|
  {
    if order == [] then labels else Sweep(adj, order[1..], Update(adj, labels, order[0]))
  }

  function Initial(adj: Adjacency): Labels { map v | v in adj :: v }

  /** `rounds` sweeps over all nodes, whether or not anything changes. */
  function Rounds(adj: Adjacency, labels: Labels, rounds: nat): (r: Labels)
    requires GraphOk(adj, labels)
    ensures r.Keys == labels.Keys
  {
    if rounds == 0 then labels else Rounds(adj, Sweep(adj, SortSet(adj.Keys), labels), rounds - 1)
  }

  // ----- no update loses internal edges -----

  /** The undirected edges whose ends carry one label. */
  ghost function Agreeing(adj: Adjacency, labels: Labels): set<set<string>>
    requires GraphOk(adj, labels)
  {
    set u, w | u in adj && w in adj[u] && labels[u] == labels[w] :: {u, w}
  }

  ghost function Carrying(adj: Adjacency, labels: Labels, v: string, x: string): set<string>
    requires GraphOk(adj, labels) && v in adj
  {
    set w | w in adj[v] && labels[w] == x
  }

  ghost function Away(adj: Adjacency, labels: Labels, v: string): set<set<string>>
    requires GraphOk(adj, labels)
  {
    set e | e in Agreeing(adj, labels) && v !in e
  }

  lemma AgreeingSplit(adj: Adjacency, labels: Labels, v: string)
    requires GraphOk(adj, labels) && v in adj
    ensures |Agreeing(adj, labels)| == |Away(adj, labels, v)| + |Carrying(adj, labels, v, labels[v])|
  {
    var star := Star(v, Carrying(adj, labels, v, labels[v]));
    StarSize(v, Carrying(adj, labels, v, labels[v]));
    var all, away := Agreeing(adj, labels), Away(adj, labels, v);
    forall e | e in all && v in e ensures e in star {
      var u, w :| u in adj && w in adj[u] && labels[u] == labels[w] && e == {u, w};
      if u == v {
        assert w in Carrying(adj, labels, v, labels[v]);
      } else {
        assert w == v && u in Carrying(adj, labels, v, labels[v]);
        assert e == {v, u};
      }
    }
    forall e | e in star ensures e in all && v in e {
      var w :| w in Carrying(adj, labels, v, labels[v]) && e == {v, w};
    }
    assert all == away + star && away !! star;
  }

  ghost function Among(labels: Labels, nodes: seq<string>, x: string): set<string> {
    set w | w in nodes && w in labels && labels[w] == x
  }

  lemma AmongCons(labels: Labels, v: string, rest: seq<string>, x: string)
    requires v in labels && v !in rest
    ensures |Among(labels, [v] + rest, x)| == |Among(labels, rest, x)| + (if x == labels[v] then 1 else 0)
  {
    var here, there := Among(labels, [v] + rest, x), Among(labels, rest, x);
    assert here == if labels[v] == x then there + {v} else there;
  }

  lemma LabelsOfCons(labels: Labels, v: string, rest: seq<string>)
    requires v in labels && forall u :: u in rest ==> u in labels
    ensures LabelsOf(labels, [v] + rest) == [labels[v]] + LabelsOf(labels, rest)
  {
  }

  lemma {:induction false} CountCarrying(labels: Labels, nodes: seq<string>, x: string)
    requires Distinct(nodes) && forall v :: v in nodes ==> v in labels
    ensures Count(LabelsOf(labels, nodes), x) == |Among(labels, nodes, x)|
  {
    if nodes == [] {
      assert Among(labels, nodes, x) == {};
      assert LabelsOf(labels, nodes) == [];
    } else {
      var v, rest := nodes[0], nodes[1..];
      assert nodes == [v] + rest && v !in rest && Distinct(rest);
      hide *;
      CountCarrying(labels, rest, x);
      LabelsOfCons(labels, v, rest);
      CountCons(labels[v], LabelsOf(labels, rest), x);
      AmongCons(labels, v, rest, x);
    }
  }

  lemma CountCons(y: string, s: seq<string>, x: string)
    ensures Count([y] + s, x) == Count(s, x) + (if x == y then 1 else 0)
  {
  }

  /** At least as many neighbours carry the chosen label as carry any other. */
  lemma ChosenCarried(adj: Adjacency, labels: Labels, v: string, x: string)
    requires GraphOk(adj, labels) && v in adj && adj[v] != {}
    ensures var b := MostCommon(LabelsOf(labels, SortSet(adj[v])));
            |Carrying(adj, labels, v, x)| <= |Carrying(adj, labels, v, b)|
  {
    var nodes := SortSet(adj[v]);
    var b := MostCommon(LabelsOf(labels, nodes));
    CountCarrying(labels, nodes, x);
    CountCarrying(labels, nodes, b);
    assert Carrying(adj, labels, v, x) == Among(labels, nodes, x);
    assert Carrying(adj, labels, v, b) == Among(labels, nodes, b);
  }

  /** A single update never lowers the number of edges whose ends share a label. */
  lemma UpdateKeepsEdges(adj: Adjacency, labels: Labels, v: string)
    requires GraphOk(adj, labels) && v in adj
    ensures |Agreeing(adj, labels)| <= |Agreeing(adj, Update(adj, labels, v))|
  {
    var after := Update(adj, labels, v);
    if after != labels {
      var a, b := labels[v], after[v];
      AgreeingSplit(adj, labels, v);
      AgreeingSplit(adj, after, v);
      AwaySame(adj, labels, after, v);
      ChosenCarried(adj, labels, v, a);
      assert a != b;
      assert Carrying(adj, labels, v, b) <= Carrying(adj, after, v, b);
      SubsetSize(Carrying(adj, labels, v, b), Carrying(adj, after, v, b));
    }
  }

  lemma AwaySame(adj: Adjacency, labels: Labels, after: Labels, v: string)
    requires GraphOk(adj, labels) && GraphOk(adj, after) && forall u :: u in labels && u != v ==> after[u] == labels[u]
    ensures Away(adj, labels, v) == Away(adj, after, v)
  {
    forall e | e in Away(adj, labels, v) ensures e in Away(adj, after, v) {
      var u, w :| u in adj && w in adj[u] && labels[u] == labels[w] && e == {u, w};
      assert u in e && w in e;
    }
    forall e | e in Away(adj, after, v) ensures e in Away(adj, labels, v) {
      var u, w :| u in adj && w in adj[u] && after[u] == after[w] && e == {u, w};
      assert u in e && w in e;
    }
  }

  lemma {:induction false} SweepKeepsEdges(adj: Adjacency, order: seq<string>, labels: Labels)
    requires GraphOk(adj, labels) && forall v :: v in order ==> v in adj
    ensures |Agreeing(adj, labels)| <= |Agreeing(adj, Sweep(adj, order, labels))|
    decreases |order|
  {
    if order != [] {
      UpdateKeepsEdges(adj, labels, order[0]);
      SweepKeepsEdges(adj, order[1..], Update(adj, labels, order[0]));
    }
  }

  /** Over any number of rounds, from any labelling, no internal edge is lost on balance. */
  lemma {:induction false} RoundsKeepEdges(adj: Adjacency, labels: Labels, rounds: nat)
    requires GraphOk(adj, labels)
    ensures |Agreeing(adj, labels)| <= |Agreeing(adj, Rounds(adj, labels, rounds))|
    decreases rounds
  {
    hide Agreeing, Sweep, SortSet, Symmetric;
    if rounds > 0 {
      SweepKeepsEdges(adj, SortSet(adj.Keys), labels);
      RoundsKeepEdges(adj, Sweep(adj, SortSet(adj.Keys), labels), rounds - 1);
    }
  }

  // ----- labels stay in their component -----

  ghost predicate Path(adj: Adjacency, a: string, b: string, k: nat)
    decreases k
  {
    if k == 0 then a == b else exists m :: a in adj && m in adj[a] && Path(adj, m, b, k - 1)
  }

  ghost predicate Connected(adj: Adjacency, a: string, b: string) { exists k: nat :: Path(adj, a, b, k) }

  lemma {:induction false} PathConcat(adj: Adjacency, a: string, b: string, c: string, k: nat, l: nat)
    requires Path(adj, a, b, k) && Path(adj, b, c, l)
    ensures Path(adj, a, c, k + l)
    decreases k
  {
    if k > 0 {
      var m :| a in adj && m in adj[a] && Path(adj, m, b, k - 1);
      PathConcat(adj, m, b, c, k - 1, l);
    }
  }

  lemma {:induction false} PathReverse(adj: Adjacency, a: string, b: string, k: nat)
    requires Symmetric(adj) && Path(adj, a, b, k)
    ensures Path(adj, b, a, k)
    decreases k
  {
    if k > 0 {
      var m :| a in adj && m in adj[a] && Path(adj, m, b, k - 1);
      PathReverse(adj, m, b, k - 1);
      assert Path(adj, a, a, 0) && a in adj[m];
      assert Path(adj, m, a, 1);
      PathConcat(adj, b, m, a, k - 1, 1);
    }
  }

  ghost predicate LabelsReachable(adj: Adjacency, labels: Labels) {
    forall v :: v in labels ==> Connected(adj, v, labels[v])
  }

  lemma UpdateKeepsReach(adj: Adjacency, labels: Labels, v: string)
    requires GraphOk(adj, labels) && v in adj && LabelsReachable(adj, labels)
    ensures LabelsReachable(adj, Update(adj, labels, v))
  {
    if adj[v] != {} {
      var n := UpdateFrom(adj, labels, v);
      hide Update, Symmetric;
      var k: nat :| Path(adj, n, labels[n], k);
      assert Path(adj, v, labels[n], k + 1);
    }
  }

  /** An update takes the label of a neighbour. */
  lemma UpdateFrom(adj: Adjacency, labels: Labels, v: string) returns (n: string)
    requires GraphOk(adj, labels) && v in adj && adj[v] != {}
    ensures n in adj[v] && n in adj && Update(adj, labels, v) == labels[v := labels[n]]
  {
    var nodes := SortSet(adj[v]);
    var s := LabelsOf(labels, nodes);
    assert s != [];
    var b := MostCommon(s);
    hide MostCommon, SortSet;
    var i :| 0 <= i < |s| && s[i] == b;
    n := nodes[i];
    assert n in nodes;
  }

  lemma {:induction false} SweepKeepsReach(adj: Adjacency, order: seq<string>, labels: Labels)
    requires GraphOk(adj, labels) && LabelsReachable(adj, labels) && forall v :: v in order ==> v in adj
    ensures LabelsReachable(adj, Sweep(adj, order, labels))
    decreases |order|
  {
    if order != [] {
      UpdateKeepsReach(adj, labels, order[0]);
      SweepKeepsReach(adj, order[1..], Update(adj, labels, order[0]));
    }
  }

  lemma {:induction false} RoundsKeepReach(adj: Adjacency, labels: Labels, rounds: nat)
    requires GraphOk(adj, labels) && LabelsReachable(adj, labels)
    ensures LabelsReachable(adj, Rounds(adj, labels, rounds))
    decreases rounds
  {
    hide LabelsReachable, Sweep, SortSet, Symmetric;
    if rounds > 0 {
      SweepKeepsReach(adj, SortSet(adj.Keys), labels);
      RoundsKeepReach(adj, Sweep(adj, SortSet(adj.Keys), labels), rounds - 1);
    }
  }

  lemma InitialOk(adj: Adjacency)
    requires Symmetric(adj)
    ensures GraphOk(adj, Initial(adj)) && LabelsReachable(adj, Initial(adj))
  {
    forall v | v in adj ensures Connected(adj, v, Initial(adj)[v]) {
      assert Path(adj, v, v, 0);
    }
  }

  /** Communities lie within connected components: equal labels mean a path between the nodes. */
  lemma CommunitiesConnected(adj: Adjacency, rounds: nat, a: string, b: string)
    requires Symmetric(adj) && a in adj && b in adj
    ensures GraphOk(adj, Initial(adj))
    ensures var labels := Rounds(adj, Initial(adj), rounds);
            Connected(adj, a, labels[a]) && (labels[a] == labels[b] ==> Connected(adj, a, b))
  {
    InitialOk(adj);
    RoundsKeepReach(adj, Initial(adj), rounds);
    var labels := Rounds(adj, Initial(adj), rounds);
    if labels[a] == labels[b] {
      var k: nat :| Path(adj, a, labels[a], k);
      var l: nat :| Path(adj, b, labels[b], l);
      PathReverse(adj, b, labels[b], l);
      PathConcat(adj, a, labels[a], b, k, l);
    }
  }

  /** A node without neighbours keeps its own label and nobody else ever carries it. */
  lemma IsolatedSingleton(adj: Adjacency, rounds: nat, v: string, u: string)
    requires Symmetric(adj) && v in adj && adj[v] == {} && u in adj
    ensures GraphOk(adj, Initial(adj))
    ensures var labels := Rounds(adj, Initial(adj), rounds);
            labels[v] == v && (labels[u] == v ==> u == v)
  {
    CommunitiesConnected(adj, rounds, v, u);
    CommunitiesConnected(adj, rounds, u, v);
    var labels := Rounds(adj, Initial(adj), rounds);
    var k: nat :| Path(adj, v, labels[v], k);
    assert labels[v] == v;
    if labels[u] == v {
      var l: nat :| Path(adj, u, v, l);
      PathReverse(adj, u, v, l);
    }
  }

  // ----- the loop, and what stopping early means -----

  /** Every node with neighbours carries a label most common among them, and would choose it again. */
  ghost predicate Stable(adj: Adjacency, labels: Labels)
    requires GraphOk(adj, labels)
  {
    forall v :: v in adj ==> Update(adj, labels, v) == labels
  }

  lemma {:induction false} UnchangedSweep(adj: Adjacency, order: seq<string>, labels: Labels)
    requires GraphOk(adj, labels) && Distinct(order) && (forall v :: v in order ==> v in adj)
    requires Sweep(adj, order, labels) == labels
    ensures forall v :: v in order ==> Update(adj, labels, v) == labels
    decreases |order|
  {
    if order != [] {
      var v := order[0];
      var next := Update(adj, labels, v);
      assert v !in order[1..];
      assert next == labels;
      UnchangedSweep(adj, order[1..], labels);
      assert order == [v] + order[1..];
    }
  }

  lemma {:induction false} StableRounds(adj: Adjacency, labels: Labels, rounds: nat)
    requires GraphOk(adj, labels) && Sweep(adj, SortSet(adj.Keys), labels) == labels
    ensures Rounds(adj, labels, rounds) == labels
    decreases rounds
  {
    hide Sweep, SortSet, Symmetric;
    if rounds > 0 {
      StableRounds(adj, labels, rounds - 1);
    }
  }

  /** The round after `k` others changes nothing. */
  ghost predicate QuietAfter(adj: Adjacency, labels: Labels, k: nat) {
    GraphOk(adj, labels) && Rounds(adj, labels, k + 1) == Rounds(adj, labels, k)
  }

  lemma QuietStep(adj: Adjacency, labels: Labels, k: nat)
    requires QuietAfter(adj, labels, k)
    ensures GraphOk(adj, labels) && forall v :: v in SortSet(adj.Keys) ==> v in adj
    ensures var next := Sweep(adj, SortSet(adj.Keys), labels);
            if k == 0 then next == labels else QuietAfter(adj, next, k - 1)
  {
    RoundsStep(adj, labels, k + 1);
    RoundsStep(adj, labels, k);
    RoundsStep(adj, Sweep(adj, SortSet(adj.Keys), labels), 0);
    hide Rounds, Sweep, SortSet, GraphOk;
  }

  ghost predicate StableAfter(adj: Adjacency, labels: Labels, rounds: nat) {
    GraphOk(adj, labels) && Stable(adj, Rounds(adj, labels, rounds))
  }

  lemma StableStep(adj: Adjacency, labels: Labels, rounds: nat)
    requires GraphOk(adj, labels) && rounds > 0 && forall v :: v in SortSet(adj.Keys) ==> v in adj
    requires var next := Sweep(adj, SortSet(adj.Keys), labels); StableAfter(adj, next, rounds - 1) || next == labels
    ensures StableAfter(adj, labels, rounds)
  {
    RoundsStep(adj, labels, rounds);
    if Sweep(adj, SortSet(adj.Keys), labels) == labels {
      StableRounds(adj, labels, rounds);
      UnchangedIsStable(adj, labels);
    }
    hide Rounds, Sweep, SortSet, Stable;
  }

  /** Once a round changes nothing the labels are stable, however many rounds follow. */
  lemma {:induction false} QuietStays(adj: Adjacency, labels: Labels, k: nat, rounds: nat)
    requires QuietAfter(adj, labels, k) && k < rounds
    ensures StableAfter(adj, labels, rounds)
    decreases k
  {
    hide *;
    QuietStep(adj, labels, k);
    if k > 0 {
      QuietStays(adj, Sweep(adj, SortSet(adj.Keys), labels), k - 1, rounds - 1);
    }
    StableStep(adj, labels, rounds);
  }

  /** After these rounds the labels are stable, unless every single round has changed something. */
  ghost predicate StableOrSpent(adj: Adjacency, rounds: nat) {
    StableAfter(adj, Initial(adj), rounds) || forall k: nat :: k < rounds ==> !QuietAfter(adj, Initial(adj), k)
  }

  lemma RoundsEnd(adj: Adjacency, rounds: nat)
    ensures StableOrSpent(adj, rounds)
  {
    hide StableAfter, QuietAfter;
    if k: nat :| k < rounds && QuietAfter(adj, Initial(adj), k) {
      QuietStays(adj, Initial(adj), k, rounds);
    }
  }

  /**
   The labels are those of `maxIterations` full rounds, early exit or not; an early exit leaves them
   stable, and no internal edge has been lost.
   */
  method PropagateLabels(adj: Adjacency, maxIterations: nat) returns (labels: Labels, ghost converged: bool)
    requires Symmetric(adj)
    ensures GraphOk(adj, Initial(adj)) && labels == Rounds(adj, Initial(adj), maxIterations)
    ensures GraphOk(adj, labels) && (converged ==> Stable(adj, labels))
    ensures |Agreeing(adj, Initial(adj))| <= |Agreeing(adj, labels)|
  {
    InitialOk(adj);
    RoundsKeepEdges(adj, Initial(adj), maxIterations);
    labels := map v | v in adj :: v;
    assert labels == Initial(adj);
    hide *;
    ghost var left;
    labels, left, converged := RunRounds(adj, labels, maxIterations);
    RoundsStep(adj, labels, left);
  }

  /** Rounds until the count is used up or a round changes nothing. */
  method RunRounds(
    adj: Adjacency, before: Labels, rounds: nat) returns (labels: Labels, ghost left: nat, ghost converged: bool)
    requires GraphOk(adj, before)
    ensures GraphOk(adj, labels) && Rounds(adj, labels, left) == Rounds(adj, before, rounds)
    ensures if converged then Stable(adj, labels) && Rounds(adj, labels, left) == labels else left == 0
  {
    labels, left, converged := before, rounds, false;
    hide *;
    for i := 0 to rounds
      invariant GraphOk(adj, labels) && left == rounds - i && !converged
      invariant Rounds(adj, labels, left) == Rounds(adj, before, rounds)
    {
      var oldLabels := labels;
      RoundsStep(adj, labels, left);
      labels := SweepNodes(adj, SortSet(adj.Keys), labels);
      if labels == oldLabels {
        StableRounds(adj, labels, left);
        UnchangedIsStable(adj, labels);
        converged := true;
        return;
      }
      left := left - 1;
    }
  }

  lemma RoundsStep(adj: Adjacency, labels: Labels, rounds: nat)
    requires GraphOk(adj, labels)
    ensures rounds == 0 ==> Rounds(adj, labels, rounds) == labels
    ensures forall v :: v in SortSet(adj.Keys) ==> v in adj
    ensures GraphOk(adj, Sweep(adj, SortSet(adj.Keys), labels))
    ensures rounds > 0 ==> Rounds(adj, labels, rounds) == Rounds(adj, Sweep(adj, SortSet(adj.Keys), labels), rounds - 1)
  {
    hide Sweep, SortSet, Symmetric;
  }

  lemma UnchangedIsStable(adj: Adjacency, labels: Labels)
    requires GraphOk(adj, labels) && Sweep(adj, SortSet(adj.Keys), labels) == labels
    ensures Stable(adj, labels)
  {
    UnchangedSweep(adj, SortSet(adj.Keys), labels);
    assert forall v :: v in adj ==> v in SortSet(adj.Keys);
    hide Sweep, Update, SortSet;
  }

  lemma UpdateTakes(adj: Adjacency, labels: Labels, v: string)
    requires GraphOk(adj, labels) && v in adj
    ensures forall u :: u in SortSet(adj[v]) ==> u in labels
    ensures var s := LabelsOf(labels, SortSet(adj[v]));
            if adj[v] == {} then Update(adj, labels, v) == labels
            else s != [] && Update(adj, labels, v) == labels[v := MostCommon(s)]
  {
    hide LabelsOf, MostCommon, SortSet;
  }

  lemma SweepStep(adj: Adjacency, order: seq<string>, i: nat, labels: Labels)
    requires GraphOk(adj, labels) && i < |order| && forall v :: v in order ==> v in adj
    ensures order[i] in adj && GraphOk(adj, Update(adj, labels, order[i]))
    ensures Sweep(adj, order[i..], labels) == Sweep(adj, order[i + 1..], Update(adj, labels, order[i]))
  {
    assert order[i..][0] == order[i] && order[i..][1..] == order[i + 1..];
    hide Update;
  }

  lemma SweepDone(adj: Adjacency, order: seq<string>)
    requires forall v :: v in order ==> v in adj
    ensures forall labels :: GraphOk(adj, labels) ==> Sweep(adj, order[|order|..], labels) == labels
    ensures order[0..] == order
  {
  }

  /** One sweep, each node reading the labels as they stand. */
  method SweepNodes(adj: Adjacency, order: seq<string>, before: Labels) returns (labels: Labels)
    requires GraphOk(adj, before) && forall v :: v in order ==> v in adj
    ensures labels == Sweep(adj, order, before)
  {
    labels := before;
    SweepDone(adj, order);
    hide *;
    for i := 0 to |order|
      invariant GraphOk(adj, labels) && Sweep(adj, order[i..], labels) == Sweep(adj, order, before)
    {
      var node := order[i];
      assert order[i..][0] == node && order[i..][1..] == order[i + 1..];
      SweepStep(adj, order, i, labels);
      UpdateTakes(adj, labels, node);
      if adj[node] == {} {
        continue;
      }
      labels := labels[node := MostCommon(LabelsOf(labels, SortSet(adj[node])))];
    }
  }
}
