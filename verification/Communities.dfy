/** Grouping entities by label, and the cohesion of a group. */
module Communities {
  import opened Collections
  import opened EntityGraph

  // ----- grouping -----

  function WithLabel(order: seq<string>, labels: map<string, string>, name: string): seq<string> {
    Filter(order, (id: string) => id in labels && labels[id] == name)
  }

  /** The communities in order of first mention, each with its entities in order. */
  ghost predicate Grouped(
    order: seq<string>, labels: map<string, string>, names: seq<string>, groups: map<string, seq<string>>)
  {
    && Distinct(names) && (forall l :: l in names <==> l in groups)
    && (forall l :: l in groups ==> groups[l] == WithLabel(order, labels, l) && groups[l] != [])
    && (forall id :: id in order && id in labels ==> labels[id] in groups)
  }

  function Bucket(groups: map<string, seq<string>>, name: string): seq<string> {
    if name in groups then groups[name] else []
  }

  lemma WithLabelSnoc(order: seq<string>, labels: map<string, string>, id: string, name: string)
    requires id in labels
    ensures WithLabel(order + [id], labels, name)
         == WithLabel(order, labels, name) + (if labels[id] == name then [id] else [])
  {
    FilterConcat(order, [id], (x: string) => x in labels && labels[x] == name);
    assert [id][1..] == [];
  }

  lemma NoneWith(
    order: seq<string>, labels: map<string, string>, names: seq<string>, groups: map<string, seq<string>>, l: string)
    requires Grouped(order, labels, names, groups)
    ensures l !in groups ==> WithLabel(order, labels, l) == []
  {
    var s := WithLabel(order, labels, l);
    assert s == [] || s[0] in s;
  }

  lemma GroupedSnoc(
    order: seq<string>, labels: map<string, string>, names: seq<string>, groups: map<string, seq<string>>, id: string,
    names': seq<string>, groups': map<string, seq<string>>)
    requires Grouped(order, labels, names, groups) && id in labels
    requires names' == (if labels[id] in groups then names else names + [labels[id]])
    requires groups' == groups[labels[id] := Bucket(groups, labels[id]) + [id]]
    ensures Grouped(order + [id], labels, names', groups')
  {
    var l := labels[id];
    NoneWith(order, labels, names, groups, l);
    DistinctSnoc(names, l);
    hide WithLabel, Distinct;
    forall m | m in groups' ensures groups'[m] == WithLabel(order + [id], labels, m) && groups'[m] != [] {
      WithLabelSnoc(order, labels, id, m);
      if m == l {
        assert Bucket(groups, l) == WithLabel(order, labels, l);
      } else {
        assert WithLabel(order, labels, m) + [] == WithLabel(order, labels, m);
      }
    }
    forall x | x in order + [id] && x in labels ensures labels[x] in groups' {
      assert x in order || x == id;
    }
  }

  lemma NoneGrouped(order: seq<string>, labels: map<string, string>)
    ensures Grouped(order[..0], labels, [], map[])
  {
  }

  method GroupByLabel(order: seq<string>, labels: map<string, string>)
    returns (names: seq<string>, groups: map<string, seq<string>>)
    requires forall id :: id in order ==> id in labels
    ensures Grouped(order, labels, names, groups)
  {
    names, groups := [], map[];
    NoneGrouped(order, labels);
    for i := 0 to |order|
      invariant Grouped(order[..i], labels, names, groups)
    {
      hide *;
      var id := order[i];
      var l := labels[id];
      ghost var names0, groups0 := names, groups;
      if l !in groups {
        names := names + [l];
      }
      groups := groups[l := Bucket(groups, l) + [id]];
      GroupedSnoc(order[..i], labels, names0, groups0, id, names, groups);
      TakeNext(order, i);
    }
    TakeAll(order);
  }

  function TotalSize(names: seq<string>, groups: map<string, seq<string>>): nat
    requires forall l :: l in names ==> l in groups
  {
    if names == [] then 0 else |groups[names[0]]| + TotalSize(names[1..], groups)
  }

  function TotalWith(order: seq<string>, labels: map<string, string>, names: seq<string>): nat {
    if names == [] then 0 else |WithLabel(order, labels, names[0])| + TotalWith(order, labels, names[1..])
  }

  lemma {:induction false} TotalWithSnoc(
    order: seq<string>, labels: map<string, string>, names: seq<string>, id: string)
    requires Distinct(names) && id in labels
    ensures TotalWith(order + [id], labels, names)
         == TotalWith(order, labels, names) + (if labels[id] in names then 1 else 0)
  {
    if names != [] {
      assert names == [names[0]] + names[1..] && names[0] !in names[1..];
      TotalWithSnoc(order, labels, names[1..], id);
      WithLabelSnoc(order, labels, id, names[0]);
    }
  }

  lemma {:induction false} TotalWithAll(order: seq<string>, labels: map<string, string>, names: seq<string>)
    requires Distinct(names) && forall id :: id in order ==> id in labels && labels[id] in names
    ensures TotalWith(order, labels, names) == |order|
  {
    if order == [] {
      EmptyTotal(labels, names);
    } else {
      var front, id := order[..|order| - 1], order[|order| - 1];
      assert order == front + [id];
      TotalWithAll(front, labels, names);
      TotalWithSnoc(front, labels, names, id);
    }
  }

  lemma {:induction false} EmptyTotal(labels: map<string, string>, names: seq<string>)
    ensures TotalWith([], labels, names) == 0
  {
    if names != [] {
      EmptyTotal(labels, names[1..]);
    }
  }

  lemma {:induction false} TotalSizeWith(
    order: seq<string>, labels: map<string, string>, names: seq<string>, groups: map<string, seq<string>>)
    requires forall l :: l in names ==> l in groups && groups[l] == WithLabel(order, labels, l)
    ensures TotalSize(names, groups) == TotalWith(order, labels, names)
  {
    if names != [] {
      assert names == [names[0]] + names[1..];
      TotalSizeWith(order, labels, names[1..], groups);
    }
  }

  /** Every entity is in exactly the community of its label, none is empty, and the sizes add up to all entities. */
  lemma CommunitiesPartition(
    order: seq<string>, labels: map<string, string>, names: seq<string>, groups: map<string, seq<string>>)
    requires Grouped(order, labels, names, groups) && Distinct(order) && forall id :: id in order ==> id in labels
    ensures forall id, l :: l in groups ==> (id in groups[l] <==> id in order && labels[id] == l)
    ensures forall l :: l in groups ==> groups[l] != [] && Distinct(groups[l])
    ensures TotalSize(names, groups) == |order|
  {
    TotalSizeWith(order, labels, names, groups);
    TotalWithAll(order, labels, names);
    forall l | l in groups ensures Distinct(groups[l]) {
      FilterDistinct(order, (id: string) => id in labels && labels[id] == l);
    }
  }

  // ----- cohesion -----

  /** `entity_ids.index(x)`. */
  function IndexOf(ids: seq<string>, x: string): (i: nat)
    requires x in ids
    ensures i < |ids| && ids[i] == x && forall j :: 0 <= j < i ==> ids[j] != x
  {
    if ids[0] == x then 0 else IndexOf(ids[1..], x) + 1
  }

  function Neighbours(adj: Adjacency, id: string): set<string> { if id in adj then adj[id] else {} }

  /** The undirected edges between two different entities of the set. */
  ghost function InternalEdges(ids: set<string>, adj: Adjacency): set<set<string>> {
    set a, b | a in ids && b in ids && a != b && a in adj && b in adj[a] :: {a, b}
  }

  /** All undirected edges there could be. */
  ghost function PossibleEdges(ids: set<string>): set<set<string>> {
    set a, b | a in ids && b in ids && a != b :: {a, b}
  }

  ghost function ToSet(ids: seq<string>): set<string> { set x | x in ids }

  /** The later neighbours of the entity at place `i`. */
  ghost function Row(ids: seq<string>, adj: Adjacency, i: nat): set<string>
    requires i < |ids|
  {
    set x | x in Neighbours(adj, ids[i]) && x in ids && i < IndexOf(ids, x)
  }

  /** The edges counted from the first `hi` entities. */
  ghost function Counted(ids: seq<string>, adj: Adjacency, hi: nat): set<set<string>>
    requires hi <= |ids|
  {
    if hi == 0 then {} else Counted(ids, adj, hi - 1) + Star(ids[hi - 1], Row(ids, adj, hi - 1))
  }

  lemma {:induction false} CountedEdge(ids: seq<string>, adj: Adjacency, hi: nat, e: set<string>)
    requires Distinct(ids) && hi <= |ids|
    ensures e in Counted(ids, adj, hi) <==>
              exists i, j :: 0 <= i < hi && i < j < |ids| && ids[j] in Neighbours(adj, ids[i]) && e == {ids[i], ids[j]}
    decreases hi
  {
    if hi > 0 {
      CountedEdge(ids, adj, hi - 1, e);
      var v, row := ids[hi - 1], Row(ids, adj, hi - 1);
      if e in Star(v, row) {
        var x :| x in row && e == {v, x};
        var j := IndexOf(ids, x);
        assert ids[j] == x && ids[j] in Neighbours(adj, ids[hi - 1]) && e == {ids[hi - 1], ids[j]};
      }
      forall j | hi - 1 < j < |ids| && ids[j] in Neighbours(adj, v) && e == {v, ids[j]} ensures e in Star(v, row) {
        assert IndexOf(ids, ids[j]) == j;
        assert ids[j] in row;
      }
    }
  }

  /** No edge is counted twice. */
  lemma CountedStep(ids: seq<string>, adj: Adjacency, i: nat)
    requires Distinct(ids) && i < |ids|
    ensures |Counted(ids, adj, i + 1)| == |Counted(ids, adj, i)| + |Row(ids, adj, i)|
  {
    var v, row := ids[i], Row(ids, adj, i);
    StarSize(v, row);
    forall e | e in Counted(ids, adj, i) ensures e !in Star(v, row) {
      CountedEdge(ids, adj, i, e);
      var k, l :| 0 <= k < i && k < l < |ids| && e == {ids[k], ids[l]};
      assert ids[k] in e;
      forall x | x in row ensures e != {v, x} {
        assert ids[IndexOf(ids, x)] == x && ids[k] != x && ids[k] != v;
      }
    }
    assert Counted(ids, adj, i) !! Star(v, row);
  }

  /** The count is of undirected internal edges, so it depends on the entities and not on their order. */
  lemma CountedAll(ids: seq<string>, adj: Adjacency)
    requires Distinct(ids) && Symmetric(adj)
    ensures Counted(ids, adj, |ids|) == InternalEdges(ToSet(ids), adj)
  {
    forall e ensures e in Counted(ids, adj, |ids|) <==> e in InternalEdges(ToSet(ids), adj) {
      CountedEdge(ids, adj, |ids|, e);
      if e in InternalEdges(ToSet(ids), adj) {
        var a, b :| a in ids && b in ids && a != b && b in Neighbours(adj, a) && e == {a, b};
        EdgePlaces(ids, adj, a, b);
      }
    }
  }

  lemma EdgePlaces(ids: seq<string>, adj: Adjacency, a: string, b: string)
    requires Symmetric(adj) && a in ids && b in ids && a != b && b in Neighbours(adj, a)
    ensures exists i, j :: 0 <= i < j < |ids| && ids[j] in Neighbours(adj, ids[i]) && {a, b} == {ids[i], ids[j]}
  {
    var i, j := IndexOf(ids, a), IndexOf(ids, b);
    assert a in Neighbours(adj, b) && {a, b} == {b, a};
    assert ids[i] == a && ids[j] == b;
    assert i < j || j < i;
  }

  lemma {:induction false} PossibleCount(ids: seq<string>)
    requires Distinct(ids)
    ensures |PossibleEdges(ToSet(ids))| == |ids| * (|ids| - 1) / 2
  {
    if ids == [] {
      assert PossibleEdges(ToSet(ids)) == {};
    } else {
      var front, v := ids[..|ids| - 1], ids[|ids| - 1];
      assert ids == front + [v] && v !in front && Distinct(front);
      assert ToSet(ids) == ToSet(front) + {v} && v !in ToSet(front);
      DistinctCardinality(front);
      assert |ToSet(front)| == |front|;
      hide *;
      PossibleCount(front);
      StarSize(v, ToSet(front));
      PossibleGrow(ToSet(front), v);
      Triangle(|ids|);
    }
  }

  lemma Triangle(n: nat)
    requires n >= 1
    ensures n * (n - 1) / 2 == (n - 1) * (n - 2) / 2 + (n - 1)
    ensures n >= 2 ==> n * (n - 1) / 2 >= 1
  {
    assert n * (n - 1) == (n - 1) * (n - 2) + 2 * (n - 1);
    assert n >= 2 ==> (n - 1) * (n - 2) >= 0;
  }

  lemma PossibleGrow(s: set<string>, v: string)
    requires v !in s
    ensures |PossibleEdges(s + {v})| == |PossibleEdges(s)| + |Star(v, s)|
  {
    var before, star := PossibleEdges(s), Star(v, s);
    forall e | e in PossibleEdges(s + {v}) ensures e in before || e in star {
      var a, b :| a in s + {v} && b in s + {v} && a != b && e == {a, b};
      assert e == {b, a};
    }
    assert forall e :: e in before ==> v !in e;
    assert forall e :: e in star ==> v in e;
    assert before !! star;
    assert PossibleEdges(s + {v}) == before + star;
  }

  ghost predicate Clique(ids: seq<string>, adj: Adjacency) {
    forall a, b :: a in ids && b in ids && a != b ==> a in adj && b in adj[a]
  }

  lemma CliqueIsAll(ids: seq<string>, adj: Adjacency)
    requires Symmetric(adj)
    ensures InternalEdges(ToSet(ids), adj) == PossibleEdges(ToSet(ids)) <==> Clique(ids, adj)
  {
    var s := ToSet(ids);
    if InternalEdges(s, adj) == PossibleEdges(s) {
      forall a, b | a in ids && b in ids && a != b ensures b in Neighbours(adj, a) {
        assert {a, b} in PossibleEdges(s);
        var c, d :| c in s && d in s && c != d && d in Neighbours(adj, c) && {a, b} == {c, d};
        assert a in {c, d} && b in {c, d};
        assert (a == c && b == d) || (a == d && b == c);
      }
    }
  }

  lemma EdgesBound(ids: seq<string>, adj: Adjacency)
    requires Distinct(ids) && Symmetric(adj) && |ids| >= 2
    ensures var edges, most := |InternalEdges(ToSet(ids), adj)|, |ids| * (|ids| - 1) / 2;
            && edges <= most && most >= 1 && (edges == most <==> Clique(ids, adj))
  {
    assert InternalEdges(ToSet(ids), adj) <= PossibleEdges(ToSet(ids));
    hide *;
    PossibleCount(ids);
    SubsetSize(InternalEdges(ToSet(ids), adj), PossibleEdges(ToSet(ids)));
    CliqueIsAll(ids, adj);
    Triangle(|ids|);
  }

  /** The later neighbours of one entity, taken from the neighbour set in any order. */
  method CountRow(ids: seq<string>, adj: Adjacency, i: nat) returns (count: nat)
    requires Distinct(ids) && i < |ids|
    ensures count == |Row(ids, adj, i)|
  {
    count := 0;
    var rest := Neighbours(adj, ids[i]);
    ghost var row := Row(ids, adj, i);
    assert IndexOf(ids, ids[i]) == i;
    RowMembers(ids, adj, i);
    assert row * rest == row;
    hide *;
    while rest != {}
      invariant rest <= Neighbours(adj, ids[i]) && count + |row * rest| == |row|
      decreases rest
    {
      var neighbour :| neighbour in rest;
      TakeOne(row, rest, neighbour);
      rest := rest - {neighbour};
      if neighbour in ids && IndexOf(ids, ids[i]) < IndexOf(ids, neighbour) {
        count := count + 1;
      }
    }
    assert row * rest == {};
  }

  lemma TakeOne(row: set<string>, rest: set<string>, x: string)
    requires x in rest
    ensures |row * rest| == |row * (rest - {x})| + (if x in row then 1 else 0)
  {
    assert row * rest == row * (rest - {x}) + (if x in row then {x} else {});
  }

  lemma RowMembers(ids: seq<string>, adj: Adjacency, i: nat)
    requires i < |ids|
    ensures forall x :: x in Row(ids, adj, i) <==> x in Neighbours(adj, ids[i]) && x in ids && i < IndexOf(ids, x)
  {
  }

  /**
   Internal edges over possible edges: within [0, 1], 0 for fewer than two entities, and 1 for two
   or more exactly when they form a clique.
   */
  method ComputeCohesion(ids: seq<string>, adj: Adjacency) returns (cohesion: real)
    requires Distinct(ids) && Symmetric(adj)
    ensures |ids| <= 1 ==> cohesion == 0.0
    ensures |ids| >= 2 ==> cohesion * (|ids| * (|ids| - 1) / 2) as real == |InternalEdges(ToSet(ids), adj)| as real
    ensures 0.0 <= cohesion <= 1.0
    ensures |ids| >= 2 ==> (cohesion == 1.0 <==> Clique(ids, adj))
  {
    var n := |ids|;
    if n <= 1 {
      return 0.0;
    }
    var internalEdges := CountEdges(ids, adj);
    EdgesBound(ids, adj);
    hide *;
    var maxEdges := n * (n - 1) / 2;
    cohesion := Ratio(internalEdges, maxEdges);
  }

  method CountEdges(ids: seq<string>, adj: Adjacency) returns (internalEdges: nat)
    requires Distinct(ids) && Symmetric(adj)
    ensures internalEdges == |InternalEdges(ToSet(ids), adj)|
  {
    internalEdges := 0;
    assert Counted(ids, adj, 0) == {};
    CountedAll(ids, adj);
    hide *;
    for i := 0 to |ids|
      invariant internalEdges == |Counted(ids, adj, i)|
    {
      CountedStep(ids, adj, i);
      var count := CountRow(ids, adj, i);
      internalEdges := internalEdges + count;
    }
  }

  /** The cohesion is the same for every order of the same entities. */
  lemma CohesionOrderFree(ids: seq<string>, ids': seq<string>, adj: Adjacency)
    requires Distinct(ids) && Distinct(ids') && Symmetric(adj) && SameElements(ids, ids')
    ensures |ids| == |ids'| && |Counted(ids, adj, |ids|)| == |Counted(ids', adj, |ids'|)|
  {
    CountedAll(ids, adj);
    CountedAll(ids', adj);
    DistinctCardinality(ids);
    DistinctCardinality(ids');
    assert ToSet(ids) == ToSet(ids');
    hide Counted, InternalEdges;
  }

  function Ratio(part: nat, whole: nat): (r: real)
    requires part <= whole && whole >= 1
    ensures r * whole as real == part as real && 0.0 <= r <= 1.0 && (r == 1.0 <==> part == whole)
  {
    part as real / whole as real
  }
}
