/** Searching from every changed node in both directions and merging what was found. */
module ImpactPropagator {
  import opened Collections
  import opened ImpactSearch
  import opened Ordering

  // ----- the search loops -----

  /** The hops out of one frontier node. */
  method ExpandNode(
    t: Task, source: string, depth: nat, path: seq<string>, rs: seq<Rel>, p: Progress) returns (q: Progress)
    ensures q == HopAll(t, source, depth, path, rs, p)
  {
    var visited, next, impacts := p.visited, p.next, p.impacts;
    for i := 0 to |rs|
      invariant HopAll(t, source, depth, path, rs[i..], Progress(visited, next, impacts))
             == HopAll(t, source, depth, path, rs, p)
    {
      assert rs[i..][0] == rs[i] && rs[i..][1..] == rs[i + 1..];
      var id := FarEnd(t.direction, rs[i]);
      if id == source {
        continue;
      }
      var score := ComputeScore(t.settings, Lower(rs[i].relType), t.change, depth);
      if score < t.settings.threshold || (id in visited && score <= visited[id]) {
        continue;
      }
      visited := visited[id := score];
      if id in t.store.nodes {
        var newPath := path + [Lower(rs[i].relType)];
        impacts := impacts + [Record(t, source, id, t.store.nodes[id], score, depth, newPath)];
        next := Put(next, id, Entry(score, newPath));
      }
    }
    q := Progress(visited, next, impacts);
  }

  method Bfs(t: Task, source: string) returns (impacts: seq<ImpactedNode>)
    ensures impacts == Search(t, source)
  {
    var frontier, visited := FirstLayer(source), map[source := 1.0];
    impacts := [];
    var depth := 1;
    while depth <= t.settings.maxDepth
      invariant LayerOk(frontier) && SearchFrom(t, source, depth, frontier, visited, impacts) == Search(t, source)
      decreases t.settings.maxDepth + 1 - depth
    {
      if Decay(t.settings, depth) == 0.0 {
        return;
      }
      ghost var start := Progress(visited, EMPTY_LAYER, impacts);
      ExpandAllLayerOk(t, source, depth, frontier, frontier.order, start);
      var p := Progress(visited, EMPTY_LAYER, impacts);
      for i := 0 to |frontier.order|
        invariant ExpandAll(t, source, depth, frontier, frontier.order[i..], p)
               == ExpandAll(t, source, depth, frontier, frontier.order, start)
      {
        var id := frontier.order[i];
        assert frontier.order[i..][0] == id && frontier.order[i..][1..] == frontier.order[i + 1..];
        p := ExpandNode(t, source, depth, frontier.entries[id].path, Incident(t, id), p);
      }
      frontier, visited, impacts := p.next, p.visited, p.impacts;
      if frontier.order == [] || Decay(t.settings, depth + 1) == 0.0 {
        return;
      }
      depth := depth + 1;
    }
  }

  // ----- merging -----

  type Key = (string, Direction)

  function KeyOf(i: ImpactedNode): Key { (i.nodeId, i.direction) }

  /** An insertion-ordered dictionary from keys to the best record so far. */
  datatype Merged = Merged(order: seq<Key>, best: map<Key, ImpactedNode>)

  ghost predicate MergedOk(m: Merged) {
    && (forall k :: k in m.order <==> k in m.best)
    && (forall k :: k in m.best ==> KeyOf(m.best[k]) == k)
    && Distinct(m.order)
  }

  function Add(m: Merged, i: ImpactedNode): (r: Merged)
    requires MergedOk(m)
    ensures MergedOk(r)
  {
    var k := KeyOf(i);
    if k !in m.best then Merged(m.order + [k], m.best[k := i])
    else if i.score > m.best[k].score then m.(best := m.best[k := i])
    else m
  }

  function AddAll(m: Merged, s: seq<ImpactedNode>): (r: Merged)
    requires MergedOk(m)
    ensures MergedOk(r)
    decreases |s|
  {
    if s == [] then m else AddAll(Add(m, s[0]), s[1..])
  }

  const NOTHING_MERGED := Merged([], map[])

  /** The best record of every key. */
  function MergeMap(s: seq<ImpactedNode>): map<Key, ImpactedNode> { AddAll(NOTHING_MERGED, s).best }

  function Values(m: Merged): (r: seq<ImpactedNode>)
    requires MergedOk(m)
    ensures |r| == |m.order| && forall j :: 0 <= j < |r| ==> r[j] == m.best[m.order[j]]
  {
    seq(|m.order|, j requires 0 <= j < |m.order| => m.best[m.order[j]])
  }

  predicate ScoreGe(a: ImpactedNode, b: ImpactedNode) { a.score >= b.score }

  function Merge(s: seq<ImpactedNode>): seq<ImpactedNode> { Sort(Values(AddAll(NOTHING_MERGED, s)), ScoreGe) }

  method MergeImpacts(s: seq<ImpactedNode>) returns (r: seq<ImpactedNode>)
    ensures r == Merge(s)
  {
    var order: seq<Key>, best := [], map[];
    for i := 0 to |s|
      invariant MergedOk(Merged(order, best)) && AddAll(Merged(order, best), s[i..]) == AddAll(NOTHING_MERGED, s)
    {
      assert s[i..][0] == s[i] && s[i..][1..] == s[i + 1..];
      var k := KeyOf(s[i]);
      if k !in best {
        order := order + [k];
        best := best[k := s[i]];
      } else if s[i].score > best[k].score {
        best := best[k := s[i]];
      }
    }
    r := Sort(Values(Merged(order, best)), ScoreGe);
  }

  // ----- what merging promises -----

  lemma {:induction false} AddAllConcat(m: Merged, a: seq<ImpactedNode>, b: seq<ImpactedNode>)
    requires MergedOk(m)
    ensures AddAll(m, a + b) == AddAll(AddAll(m, a), b)
    decreases |a|
  {
    if a == [] {
      assert a + b == b;
    } else {
      assert (a + b)[1..] == a[1..] + b;
      AddAllConcat(Add(m, a[0]), a[1..], b);
    }
  }

  lemma AddBest(m: Merged, i: ImpactedNode)
    requires MergedOk(m)
    ensures var r := Add(m, i).best;
            && (forall k :: k in r ==> r[k] == i || (k in m.best && r[k] == m.best[k]))
            && KeyOf(i) in r && i.score <= r[KeyOf(i)].score
            && (forall k :: k in m.best ==> k in r && m.best[k].score <= r[k].score)
  {
  }

  /** The record held for a key comes from the input, and nothing in the input beats it. */
  lemma {:induction false} AddAllBest(m: Merged, s: seq<ImpactedNode>)
    requires MergedOk(m)
    ensures var r := AddAll(m, s).best;
            && (forall k :: k in r ==> r[k] in s || (k in m.best && r[k] == m.best[k]))
            && (forall i :: i in s ==> KeyOf(i) in r && i.score <= r[KeyOf(i)].score)
            && (forall k :: k in m.best ==> k in r && m.best[k].score <= r[k].score)
    decreases |s|
  {
    if s != [] {
      var n := Add(m, s[0]);
      AddAllBest(n, s[1..]);
      assert AddAll(m, s) == AddAll(n, s[1..]);
      assert forall i :: i in s <==> i == s[0] || i in s[1..];
      AddBest(m, s[0]);
      hide *;
    }
  }

  /** The better of two dictionaries, key by key; a tie keeps the first. */
  function Better(m: map<Key, ImpactedNode>, n: map<Key, ImpactedNode>): map<Key, ImpactedNode> {
    map k | k in m.Keys + n.Keys :: if k in m && (k !in n || n[k].score <= m[k].score) then m[k] else n[k]
  }

  lemma {:induction false} AddAllBetter(m: Merged, s: seq<ImpactedNode>)
    requires MergedOk(m)
    ensures AddAll(m, s).best == Better(m.best, MergeMap(s))
    decreases |s|
  {
    if s == [] {
      assert MergeMap(s) == map[];
    } else {
      var front, i := s[..|s| - 1], s[|s| - 1];
      assert s == front + [i];
      AddAllBetter(m, front);
      AddAllConcat(m, front, [i]);
      AddAllConcat(NOTHING_MERGED, front, [i]);
      AddOne(AddAll(m, front), i);
      AddOne(AddAll(NOTHING_MERGED, front), i);
      BetterSnoc(m.best, MergeMap(front), i);
    }
  }

  function AddTo(m: map<Key, ImpactedNode>, i: ImpactedNode): map<Key, ImpactedNode> {
    if KeyOf(i) !in m || i.score > m[KeyOf(i)].score then m[KeyOf(i) := i] else m
  }

  lemma AddOne(m: Merged, i: ImpactedNode)
    requires MergedOk(m)
    ensures AddAll(m, [i]).best == AddTo(m.best, i)
  {
    assert [i][1..] == [];
  }

  lemma BetterSnoc(m: map<Key, ImpactedNode>, n: map<Key, ImpactedNode>, i: ImpactedNode)
    ensures AddTo(Better(m, n), i) == Better(m, AddTo(n, i))
  {
  }

  /** Merging a list without repeated keys finds the list itself. */
  lemma {:induction false} MergeMapDistinct(s: seq<ImpactedNode>)
    requires forall a, b :: 0 <= a < b < |s| ==> !SameTarget(s[a], s[b])
    ensures forall i :: i in s ==> KeyOf(i) in MergeMap(s) && MergeMap(s)[KeyOf(i)] == i
    ensures forall k :: k in MergeMap(s) ==> MergeMap(s)[k] in s && KeyOf(MergeMap(s)[k]) == k
  {
    AddAllBest(NOTHING_MERGED, s);
    forall i | i in s ensures MergeMap(s)[KeyOf(i)] == i {
      var r := MergeMap(s)[KeyOf(i)];
      var a :| 0 <= a < |s| && s[a] == i;
      var b :| 0 <= b < |s| && s[b] == r;
    }
  }

  /** The records are about one node met in one direction. */
  ghost predicate SameTarget(a: ImpactedNode, b: ImpactedNode) { a.nodeId == b.nodeId && a.direction == b.direction }

  /** The best record of its target, and the first of the best. */
  ghost predicate FirstBest(s: seq<ImpactedNode>, a: nat)
    requires a < |s|
  {
    forall b :: 0 <= b < |s| && SameTarget(s[b], s[a]) ==>
      s[b].score <= s[a].score && (b < a ==> s[b].score < s[a].score)
  }

  lemma MergeMapSnoc(front: seq<ImpactedNode>, last: ImpactedNode)
    ensures MergeMap(front + [last]) == AddTo(MergeMap(front), last)
  {
    AddAllConcat(NOTHING_MERGED, front, [last]);
    AddOne(AddAll(NOTHING_MERGED, front), last);
  }

  lemma MergeMapMember(s: seq<ImpactedNode>, k: Key)
    ensures k in MergeMap(s) ==> MergeMap(s)[k] in s && KeyOf(MergeMap(s)[k]) == k
  {
    AddAllBest(NOTHING_MERGED, s);
    assert MergedOk(AddAll(NOTHING_MERGED, s));
  }

  lemma {:induction false} FirstBestMapped(s: seq<ImpactedNode>, a: nat)
    requires a < |s| && FirstBest(s, a)
    ensures KeyOf(s[a]) in MergeMap(s) && MergeMap(s)[KeyOf(s[a])] == s[a]
    decreases |s|
  {
    var front, last := s[..|s| - 1], s[|s| - 1];
    assert s == front + [last];
    if a < |front| {
      FirstBestFront(s, a);
      FirstBestMapped(front, a);
    } else {
      LastBest(front, last);
    }
    MergeMapSnoc(front, last);
    hide MergeMap, FirstBest;
  }

  lemma FirstBestFront(s: seq<ImpactedNode>, a: nat)
    requires a < |s| - 1 && FirstBest(s, a)
    ensures s[..|s| - 1][a] == s[a] && FirstBest(s[..|s| - 1], a)
    ensures KeyOf(s[|s| - 1]) == KeyOf(s[a]) ==> s[|s| - 1].score <= s[a].score
  {
    var front, last := s[..|s| - 1], s[|s| - 1];
    assert forall b :: 0 <= b < |front| ==> front[b] == s[b];
    assert SameTarget(last, s[a]) ==> last.score <= s[a].score;
  }

  lemma LastBest(front: seq<ImpactedNode>, last: ImpactedNode)
    requires FirstBest(front + [last], |front|)
    ensures KeyOf(last) in MergeMap(front) ==> MergeMap(front)[KeyOf(last)].score < last.score
  {
    var s := front + [last];
    assert s[|front|] == last;
    MergeMapMember(front, KeyOf(last));
    hide MergeMap;
    if KeyOf(last) in MergeMap(front) {
      var b :| 0 <= b < |front| && front[b] == MergeMap(front)[KeyOf(last)];
      assert s[b] == front[b] && SameTarget(s[b], last);
    }
  }

  /** A merge keeps the first of the best records of each target. */
  lemma MergeKeepsFirst(s: seq<ImpactedNode>, a: nat)
    requires a < |s| && FirstBest(s, a)
    ensures s[a] in Merge(s)
  {
    FirstBestMapped(s, a);
    MergeExact(s);
  }

  /** One record per key, each taken from the input with the best score of its key, best first. */
  lemma MergeExact(s: seq<ImpactedNode>)
    ensures var r := Merge(s);
            && (forall i :: i in r <==> KeyOf(i) in MergeMap(s) && MergeMap(s)[KeyOf(i)] == i)
            && (forall a, b :: 0 <= a < b < |r| ==> !SameTarget(r[a], r[b]) && r[a].score >= r[b].score)
            && (forall i :: i in r ==> i in s)
            && (forall i :: i in s ==> exists j :: j in r && SameTarget(j, i) && j.score >= i.score)
  {
    var m := AddAll(NOTHING_MERGED, s);
    AddAllBest(NOTHING_MERGED, s);
    assert MergeMap(s) == m.best && Merge(s) == Sort(Values(m), ScoreGe);
    hide AddAll, Merge, MergeMap, Values;
    ValuesAre(m);
    ValuesSorted(m);
    forall i | i in s ensures exists j :: j in Merge(s) && SameTarget(j, i) && j.score >= i.score {
      assert m.best[KeyOf(i)] in Merge(s);
    }
  }

  lemma ValuesSorted(m: Merged)
    requires MergedOk(m)
    ensures var r := Sort(Values(m), ScoreGe);
            && (forall i :: i in r <==> i in Values(m))
            && (forall a, b :: 0 <= a < b < |r| ==> KeyOf(r[a]) != KeyOf(r[b]) && r[a].score >= r[b].score)
  {
    var values := Values(m);
    var r := Sort(values, ScoreGe);
    SortElements(values, ScoreGe);
    SortSorted(values, ScoreGe);
    forall a, b | 0 <= a < b < |values| ensures KeyOf(values[a]) != KeyOf(values[b]) {
      assert KeyOf(values[a]) == m.order[a] && KeyOf(values[b]) == m.order[b];
    }
    RearrangedKeys(values, r);
    hide Values, Sort, KeyOf, MergedOk;
  }

  lemma RearrangedKeys(values: seq<ImpactedNode>, r: seq<ImpactedNode>)
    requires multiset(values) == multiset(r) && forall i :: i in r ==> i in values
    requires forall a, b :: 0 <= a < b < |values| ==> KeyOf(values[a]) != KeyOf(values[b])
    ensures forall a, b :: 0 <= a < b < |r| ==> KeyOf(r[a]) != KeyOf(r[b])
  {
    hide KeyOf;
    MultisetDistinct(values, r);
    forall a, b | 0 <= a < b < |r| ensures KeyOf(r[a]) != KeyOf(r[b]) {
      assert r[a] in values && r[b] in values;
      var i :| 0 <= i < |values| && values[i] == r[a];
      var j :| 0 <= j < |values| && values[j] == r[b];
      assert i < j || j < i;
    }
  }

  lemma ValuesAre(m: Merged)
    requires MergedOk(m)
    ensures forall i :: i in Values(m) <==> KeyOf(i) in m.best && m.best[KeyOf(i)] == i
  {
    forall i | KeyOf(i) in m.best && m.best[KeyOf(i)] == i ensures i in Values(m) {
      var j :| 0 <= j < |m.order| && m.order[j] == KeyOf(i);
      assert Values(m)[j] == i;
    }
  }

  /** Merging a merged list changes no record. */
  lemma MergeIdempotent(s: seq<ImpactedNode>)
    ensures MergeMap(Merge(s)) == MergeMap(s)
  {
    MergeMapKeys(s);
    hide *;
    MergeExact(s);
    MergeMapDistinct(Merge(s));
    SameMap(MergeMap(s), MergeMap(Merge(s)), Merge(s));
  }

  lemma MergeMapKeys(s: seq<ImpactedNode>)
    ensures forall k :: k in MergeMap(s) ==> KeyOf(MergeMap(s)[k]) == k
  {
    assert MergedOk(AddAll(NOTHING_MERGED, s));
  }

  lemma SameMap(m: map<Key, ImpactedNode>, n: map<Key, ImpactedNode>, r: seq<ImpactedNode>)
    requires forall i :: i in r <==> KeyOf(i) in m && m[KeyOf(i)] == i
    requires forall k :: k in m ==> KeyOf(m[k]) == k
    requires forall i :: i in r ==> KeyOf(i) in n && n[KeyOf(i)] == i
    requires forall k :: k in n ==> n[k] in r && KeyOf(n[k]) == k
    ensures m == n
  {
    hide KeyOf;
    forall k | k in m ensures k in n && n[k] == m[k] {
      assert m[k] in r;
    }
    forall k | k in n ensures k in m && n[k] == m[k] {
      assert n[k] in r;
    }
  }

  function Flatten(groups: seq<seq<ImpactedNode>>): seq<ImpactedNode> {
    if groups == [] then [] else Flatten(groups[..|groups| - 1]) + groups[|groups| - 1]
  }

  function MergeEach(groups: seq<seq<ImpactedNode>>): seq<seq<ImpactedNode>> {
    if groups == [] then [] else MergeEach(groups[..|groups| - 1]) + [Merge(groups[|groups| - 1])]
  }

  /** Merging groups that were merged one by one gives the records of one flat merge, ties included. */
  lemma {:induction false} MergeOfMerged(groups: seq<seq<ImpactedNode>>)
    ensures MergeMap(Flatten(MergeEach(groups))) == MergeMap(Flatten(groups))
  {
    if groups != [] {
      var front, g := groups[..|groups| - 1], groups[|groups| - 1];
      MergeOfMerged(front);
      var merged := MergeEach(groups);
      assert merged[..|merged| - 1] == MergeEach(front) && merged[|merged| - 1] == Merge(g);
      AddAllConcat(NOTHING_MERGED, Flatten(front), g);
      AddAllConcat(NOTHING_MERGED, Flatten(MergeEach(front)), Merge(g));
      AddAllBetter(AddAll(NOTHING_MERGED, Flatten(front)), g);
      AddAllBetter(AddAll(NOTHING_MERGED, Flatten(MergeEach(front))), Merge(g));
      MergeIdempotent(g);
    }
  }

  // ----- the whole propagation -----

  datatype Change = Change(path: string, changeType: ChangeType)

  /** The change type of each changed node, in order of first mention; the last mention decides the type. */
  datatype Kinds = Kinds(order: seq<string>, kind: map<string, ChangeType>)

  ghost predicate KindsOk(k: Kinds) { forall id :: id in k.order <==> id in k.kind }

  function Assign(k: Kinds, ids: seq<string>, c: ChangeType): (r: Kinds)
    requires KindsOk(k)
    ensures KindsOk(r)
    decreases |ids|
  {
    if ids == [] then k
    else Assign(Kinds(if ids[0] in k.kind then k.order else k.order + [ids[0]], k.kind[ids[0] := c]), ids[1..], c)
  }

  function AssignAll(k: Kinds, changes: seq<Change>, nodesOf: string -> seq<string>): (r: Kinds)
    requires KindsOk(k)
    ensures KindsOk(r)
    decreases |changes|
  {
    if changes == [] then k
    else AssignAll(Assign(k, nodesOf(changes[0].path), changes[0].changeType), changes[1..], nodesOf)
  }

  lemma {:induction false} AssignExact(k: Kinds, ids: seq<string>, c: ChangeType)
    requires KindsOk(k)
    ensures var r := Assign(k, ids, c).kind;
            && (forall id :: id in r <==> id in k.kind || id in ids)
            && (forall id :: id in r ==> r[id] == if id in ids then c else k.kind[id])
    decreases |ids|
  {
    if ids != [] {
      assert ids == [ids[0]] + ids[1..];
      AssignExact(Kinds(if ids[0] in k.kind then k.order else k.order + [ids[0]], k.kind[ids[0] := c]), ids[1..], c);
    }
  }

  lemma {:induction false} AssignOrder(k: Kinds, ids: seq<string>, c: ChangeType, j: nat)
    requires KindsOk(k) && j <= |ids|
    ensures k.order <= Assign(k, ids[..j], c).order <= Assign(k, ids, c).order
    decreases |ids|
  {
    if ids != [] {
      var next := Kinds(if ids[0] in k.kind then k.order else k.order + [ids[0]], k.kind[ids[0] := c]);
      var i := if j > 0 then j - 1 else 0;
      assert j > 0 ==> ids[..j][1..] == ids[1..][..i] && ids[..j][0] == ids[0];
      AssignOrder(next, ids[1..], c, i);
    }
  }

  /** Each node of the changed files has the change of the last file that lists it; no other node has any. */
  lemma {:induction false} KindsExact(k: Kinds, changes: seq<Change>, nodesOf: string -> seq<string>, id: string)
    requires KindsOk(k)
    ensures var r := AssignAll(k, changes, nodesOf).kind;
            && (id in r <==> id in k.kind || exists d :: 0 <= d < |changes| && id in nodesOf(changes[d].path))
            && (forall d :: 0 <= d < |changes| && id in nodesOf(changes[d].path)
                            && (forall e :: d < e < |changes| ==> id !in nodesOf(changes[e].path)) ==>
                  r[id] == changes[d].changeType)
            && (id in k.kind && (forall d :: 0 <= d < |changes| ==> id !in nodesOf(changes[d].path)) ==>
                  r[id] == k.kind[id])
    decreases |changes|
  {
    if changes != [] {
      var first, rest := changes[0], changes[1..];
      AssignExact(k, nodesOf(first.path), first.changeType);
      KindsExact(Assign(k, nodesOf(first.path), first.changeType), rest, nodesOf, id);
      assert forall d :: 0 <= d < |rest| ==> rest[d] == changes[d + 1];
      hide Assign;
    }
  }

  /** The nodes of the first files come first, and those of one file in its order. */
  lemma {:induction false} KindsOrder(k: Kinds, changes: seq<Change>, nodesOf: string -> seq<string>, c: nat)
    requires KindsOk(k) && c <= |changes|
    ensures k.order <= AssignAll(k, changes[..c], nodesOf).order <= AssignAll(k, changes, nodesOf).order
    decreases |changes|
  {
    if changes != [] {
      var first, rest := changes[0], changes[1..];
      var i := if c > 0 then c - 1 else 0;
      AssignOrder(k, nodesOf(first.path), first.changeType, 0);
      assert c > 0 ==> changes[..c][1..] == rest[..i] && changes[..c][0] == first;
      hide Assign;
      KindsOrder(Assign(k, nodesOf(first.path), first.changeType), rest, nodesOf, i);
    }
  }

  const CHANGE_TYPES := [Added, Deleted, Signature, Body, DocOnly]

  function OfType(k: Kinds, c: ChangeType): seq<string>
    requires KindsOk(k)
  {
    Filter(k.order, (id: string) => id in k.kind && k.kind[id] == c)
  }

  /** Everything found from the given nodes, forward then backward from each. */
  function Found(store: Store, settings: Settings, ids: seq<string>, c: ChangeType): seq<ImpactedNode> {
    if ids == [] then []
    else
      Found(store, settings, ids[..|ids| - 1], c)
      + Search(Task(store, settings, c, Forward), ids[|ids| - 1])
      + Search(Task(store, settings, c, Backward), ids[|ids| - 1])
  }

  function Groups(store: Store, settings: Settings, k: Kinds, types: seq<ChangeType>): (r: seq<seq<ImpactedNode>>)
    requires KindsOk(k)
    ensures |r| == |types|
    ensures forall j :: 0 <= j < |types| ==> r[j] == Found(store, settings, OfType(k, types[j]), types[j])
  {
    if types == [] then []
    else Groups(store, settings, k, types[..|types| - 1])
         + [Found(store, settings, OfType(k, types[|types| - 1]), types[|types| - 1])]
  }

  method ComputeImpact(store: Store, settings: Settings, ids: seq<string>, c: ChangeType) returns (r: seq<ImpactedNode>)
    ensures r == Merge(Found(store, settings, ids, c))
  {
    var all := [];
    for i := 0 to |ids|
      invariant all == Found(store, settings, ids[..i], c)
    {
      assert ids[..i + 1][..i] == ids[..i];
      var forward := Bfs(Task(store, settings, c, Forward), ids[i]);
      var backward := Bfs(Task(store, settings, c, Backward), ids[i]);
      all := all + forward + backward;
    }
    assert ids[..|ids|] == ids;
    r := MergeImpacts(all);
  }

  method CollectKinds(changes: seq<Change>, nodesOf: string -> seq<string>) returns (kinds: Kinds)
    ensures KindsOk(kinds) && kinds == AssignAll(Kinds([], map[]), changes, nodesOf)
  {
    kinds := Kinds([], map[]);
    for i := 0 to |changes|
      invariant KindsOk(kinds)
      invariant AssignAll(kinds, changes[i..], nodesOf) == AssignAll(Kinds([], map[]), changes, nodesOf)
    {
      assert changes[i..][0] == changes[i] && changes[i..][1..] == changes[i + 1..];
      kinds := CollectFile(kinds, nodesOf(changes[i].path), changes[i].changeType);
    }
  }

  method CollectFile(before: Kinds, ids: seq<string>, c: ChangeType) returns (kinds: Kinds)
    requires KindsOk(before)
    ensures KindsOk(kinds) && kinds == Assign(before, ids, c)
  {
    kinds := before;
    for j := 0 to |ids|
      invariant KindsOk(kinds) && Assign(kinds, ids[j..], c) == Assign(before, ids, c)
    {
      assert ids[j..][0] == ids[j] && ids[j..][1..] == ids[j + 1..];
      kinds := Kinds(if ids[j] in kinds.kind then kinds.order else kinds.order + [ids[j]], kinds.kind[ids[j] := c]);
    }
  }

  method Propagate(store: Store, settings: Settings, changes: seq<Change>, nodesOf: string -> seq<string>)
    returns (r: seq<ImpactedNode>, kinds: Kinds)
    ensures KindsOk(kinds) && kinds == AssignAll(Kinds([], map[]), changes, nodesOf)
    ensures r == Merge(Flatten(MergeEach(Groups(store, settings, kinds, CHANGE_TYPES))))
  {
    kinds := CollectKinds(changes, nodesOf);
    assert |CHANGE_TYPES| == 5;
    hide *;
    var all: seq<ImpactedNode> := [];
    GroupsStep(store, settings, kinds, 0);
    for i := 0 to |CHANGE_TYPES|
      invariant all == Flatten(MergeEach(Groups(store, settings, kinds, CHANGE_TYPES[..i])))
    {
      var c := CHANGE_TYPES[i];
      GroupsStep(store, settings, kinds, i);
      var impacts := ComputeImpact(store, settings, OfType(kinds, c), c);
      all := all + impacts;
    }
    assert CHANGE_TYPES[..|CHANGE_TYPES|] == CHANGE_TYPES;
    r := MergeImpacts(all);
  }

  lemma GroupsStep(store: Store, settings: Settings, k: Kinds, i: nat)
    requires KindsOk(k) && i < |CHANGE_TYPES|
    ensures var c := CHANGE_TYPES[i];
            Flatten(MergeEach(Groups(store, settings, k, CHANGE_TYPES[..i + 1])))
              == Flatten(MergeEach(Groups(store, settings, k, CHANGE_TYPES[..i])))
                 + Merge(Found(store, settings, OfType(k, c), c))
    ensures Flatten(MergeEach(Groups(store, settings, k, CHANGE_TYPES[..0]))) == []
  {
    var c := CHANGE_TYPES[i];
    var types := CHANGE_TYPES[..i + 1];
    assert types[..|types| - 1] == CHANGE_TYPES[..i] && types[|types| - 1] == c;
    var front, g := Groups(store, settings, k, CHANGE_TYPES[..i]), Found(store, settings, OfType(k, c), c);
    assert Groups(store, settings, k, types) == front + [g];
    assert Groups(store, settings, k, CHANGE_TYPES[..0]) == [];
    hide Groups, Found, OfType, Merge;
    GroupsSnoc(front, g);
  }

  lemma GroupsSnoc(groups: seq<seq<ImpactedNode>>, g: seq<ImpactedNode>)
    ensures Flatten(MergeEach(groups + [g])) == Flatten(MergeEach(groups)) + Merge(g)
  {
    assert (groups + [g])[..|groups|] == groups;
    var merged := MergeEach(groups + [g]);
    assert merged == MergeEach(groups) + [Merge(g)];
    assert merged[..|merged| - 1] == MergeEach(groups);
  }

  /** Every record found, whatever it was merged with. */
  function AllFound(store: Store, settings: Settings, k: Kinds): seq<ImpactedNode>
    requires KindsOk(k)
  {
    Flatten(Groups(store, settings, k, CHANGE_TYPES))
  }

  /** The report holds exactly the records of a single merge over everything found. */
  lemma PropagateIsOneMerge(store: Store, settings: Settings, k: Kinds)
    requires KindsOk(k)
    ensures var r := Merge(Flatten(MergeEach(Groups(store, settings, k, CHANGE_TYPES))));
            && MergeMap(r) == MergeMap(AllFound(store, settings, k))
            && forall i :: i in r <==> i in Merge(AllFound(store, settings, k))
  {
    var groups := Groups(store, settings, k, CHANGE_TYPES);
    MergeOfMerged(groups);
    MergeIdempotent(Flatten(MergeEach(groups)));
    MergeExact(Flatten(MergeEach(groups)));
    MergeExact(AllFound(store, settings, k));
  }

  /** The record was found from `id`, one way or the other. */
  ghost predicate FoundFrom(store: Store, settings: Settings, c: ChangeType, id: string, i: ImpactedNode) {
    i in Search(Task(store, settings, c, Forward), id) || i in Search(Task(store, settings, c, Backward), id)
  }

  lemma {:induction false} FoundMember(
    store: Store, settings: Settings, ids: seq<string>, c: ChangeType, i: ImpactedNode)
    ensures i in Found(store, settings, ids, c) <==> exists id :: id in ids && FoundFrom(store, settings, c, id, i)
  {
    if ids != [] {
      var front, last := ids[..|ids| - 1], ids[|ids| - 1];
      FoundMember(store, settings, front, c, i);
      assert forall id :: id in ids <==> id in front || id == last;
      assert i in Found(store, settings, ids, c)
        <==> i in Found(store, settings, front, c) || FoundFrom(store, settings, c, last, i);
      hide *;
    }
  }

  lemma {:induction false} FlattenMember(groups: seq<seq<ImpactedNode>>, i: ImpactedNode)
    ensures i in Flatten(groups) <==> exists j :: 0 <= j < |groups| && i in groups[j]
  {
    if groups != [] {
      var front, last := groups[..|groups| - 1], groups[|groups| - 1];
      FlattenMember(front, i);
      assert i in Flatten(groups) <==> i in Flatten(front) || i in last;
      hide *;
      assert forall j :: 0 <= j < |front| ==> groups[j] == front[j];
      assert groups[|groups| - 1] == last;
    }
  }

  lemma AllFoundMember(store: Store, settings: Settings, k: Kinds, i: ImpactedNode)
    requires KindsOk(k)
    ensures i in AllFound(store, settings, k)
       <==> exists id :: id in k.kind && FoundFrom(store, settings, k.kind[id], id, i)
  {
    var groups := Groups(store, settings, k, CHANGE_TYPES);
    assert i in AllFound(store, settings, k) <==> exists j :: 0 <= j < |groups| && i in groups[j] by {
      FlattenMember(groups, i);
    }
    if exists id :: id in k.kind && FoundFrom(store, settings, k.kind[id], id, i) {
      hide *;
      var id :| id in k.kind && FoundFrom(store, settings, k.kind[id], id, i);
      var j := TypeGroup(store, settings, k, id, i);
      assert i in groups[j];
    }
    if exists j :: 0 <= j < |groups| && i in groups[j] {
      hide *;
      var j :| 0 <= j < |groups| && i in groups[j];
      GroupMember(store, settings, k, j, i);
    }
  }

  lemma TypeGroup(store: Store, settings: Settings, k: Kinds, id: string, i: ImpactedNode) returns (j: nat)
    requires KindsOk(k)
    requires id in k.kind && FoundFrom(store, settings, k.kind[id], id, i)
    ensures var groups := Groups(store, settings, k, CHANGE_TYPES); j < |groups| && i in groups[j]
  {
    EveryType();
    TypeMember(store, settings, k, k.kind[id], i);
    assert k.kind[id] in CHANGE_TYPES;
    j :| 0 <= j < |CHANGE_TYPES| && CHANGE_TYPES[j] == k.kind[id];
    hide FoundFrom, Found, OfType;
  }

  lemma GroupMember(store: Store, settings: Settings, k: Kinds, j: nat, i: ImpactedNode)
    requires KindsOk(k)
    requires var groups := Groups(store, settings, k, CHANGE_TYPES); j < |groups| && i in groups[j]
    ensures exists id :: id in k.kind && FoundFrom(store, settings, k.kind[id], id, i)
  {
    TypeMember(store, settings, k, CHANGE_TYPES[j], i);
    hide FoundFrom, Found, OfType;
  }

  lemma TypeMember(store: Store, settings: Settings, k: Kinds, c: ChangeType, i: ImpactedNode)
    requires KindsOk(k)
    ensures i in Found(store, settings, OfType(k, c), c)
       <==> exists id :: id in k.kind && k.kind[id] == c && FoundFrom(store, settings, c, id, i)
  {
    FoundMember(store, settings, OfType(k, c), c, i);
    hide FoundFrom, Found;
  }

  lemma EveryType()
    ensures forall c :: c in CHANGE_TYPES
  {
    forall c: ChangeType ensures c in CHANGE_TYPES {
      assert CHANGE_TYPES[0] == Added && CHANGE_TYPES[1] == Deleted && CHANGE_TYPES[2] == Signature
          && CHANGE_TYPES[3] == Body && CHANGE_TYPES[4] == DocOnly;
      match c
      case Added =>
      case Deleted =>
      case Signature =>
      case Body =>
      case DocOnly =>
    }
  }

  /**
   The report as a whole: one record per node and direction, best first, each standing for an
   admissible walk from a changed node; and no admissible walk from a changed node, in either
   direction, is worth more than the record of its end.
   */
  lemma PropagateOptimal(store: Store, settings: Settings, k: Kinds)
    requires KindsOk(k) && DecayFalls(settings) && settings.threshold > 0.0
    ensures var r := Merge(Flatten(MergeEach(Groups(store, settings, k, CHANGE_TYPES))));
            && (forall a, b :: 0 <= a < b < |r| ==> !SameTarget(r[a], r[b]) && r[a].score >= r[b].score)
            && (forall i :: i in r ==> exists id ::
                  id in k.kind && Supported(Task(store, settings, k.kind[id], i.direction), id, i))
            && (forall id, d, rs ::
                  id in k.kind && rs != [] && |rs| <= settings.maxDepth
                  && Admissible(Task(store, settings, k.kind[id], d), id, rs) ==>
                  exists i :: i in r && i.nodeId == EndOf(Task(store, settings, k.kind[id], d), id, rs)
                              && i.direction == d && i.score >= Worth(Task(store, settings, k.kind[id], d), rs))
  {
    var r := Merge(Flatten(MergeEach(Groups(store, settings, k, CHANGE_TYPES))));
    PropagateIsOneMerge(store, settings, k);
    MergeExact(Flatten(MergeEach(Groups(store, settings, k, CHANGE_TYPES))));
    hide *;
    forall i | i in r
      ensures exists id :: id in k.kind && Supported(Task(store, settings, k.kind[id], i.direction), id, i)
    {
      var id := ReportSupported(store, settings, k, i);
    }
    forall id, d, rs | id in k.kind && rs != [] && |rs| <= settings.maxDepth
        && Admissible(Task(store, settings, k.kind[id], d), id, rs)
      ensures exists i :: i in r && i.nodeId == EndOf(Task(store, settings, k.kind[id], d), id, rs)
                          && i.direction == d && i.score >= Worth(Task(store, settings, k.kind[id], d), rs)
    {
      var i := ReportBest(store, settings, k, id, d, rs);
    }
  }

  lemma ReportSupported(store: Store, settings: Settings, k: Kinds, i: ImpactedNode) returns (id: string)
    requires KindsOk(k) && i in Merge(AllFound(store, settings, k))
    ensures id in k.kind && Supported(Task(store, settings, k.kind[id], i.direction), id, i)
  {
    MergeExact(AllFound(store, settings, k));
    hide *;
    AllFoundMember(store, settings, k, i);
    id :| id in k.kind && FoundFrom(store, settings, k.kind[id], id, i);
    FoundSupported(store, settings, k.kind[id], id, i);
  }

  lemma ReportBest(
    store: Store, settings: Settings, k: Kinds, id: string, d: Direction, rs: seq<Rel>) returns (i: ImpactedNode)
    requires KindsOk(k) && DecayFalls(settings) && settings.threshold > 0.0 && id in k.kind
    requires rs != [] && |rs| <= settings.maxDepth && Admissible(Task(store, settings, k.kind[id], d), id, rs)
    ensures i in Merge(AllFound(store, settings, k))
    ensures i.nodeId == EndOf(Task(store, settings, k.kind[id], d), id, rs) && i.direction == d
    ensures i.score >= Worth(Task(store, settings, k.kind[id], d), rs)
  {
    var t := Task(store, settings, k.kind[id], d);
    SearchOptimal(t, id);
    MergeExact(AllFound(store, settings, k));
    hide Merge, MergeMap, Search, Admissible, HopScore, AllFound, FoundFrom, Supported, DecayFalls;
    var j :| j in Search(t, id) && j.nodeId == EndOf(t, id, rs) && j.score >= Worth(t, rs);
    SupportedDirection(t, id, j);
    SearchFound(store, settings, k.kind[id], d, id, j);
    AllFoundMember(store, settings, k, j);
    assert j in AllFound(store, settings, k);
    i :| i in Merge(AllFound(store, settings, k)) && SameTarget(i, j) && i.score >= j.score;
  }

  lemma FoundSupported(store: Store, settings: Settings, c: ChangeType, id: string, i: ImpactedNode)
    requires FoundFrom(store, settings, c, id, i)
    ensures Supported(Task(store, settings, c, i.direction), id, i)
  {
    hide Search, Supported;
    SearchOptimal(Task(store, settings, c, Forward), id);
    SearchOptimal(Task(store, settings, c, Backward), id);
    var d := if i in Search(Task(store, settings, c, Forward), id) then Forward else Backward;
    SupportedDirection(Task(store, settings, c, d), id, i);
  }

  lemma SearchFound(store: Store, settings: Settings, c: ChangeType, d: Direction, id: string, i: ImpactedNode)
    requires i in Search(Task(store, settings, c, d), id)
    ensures FoundFrom(store, settings, c, id, i)
  {
    hide Search;
  }

  lemma SupportedDirection(t: Task, source: string, i: ImpactedNode)
    requires Supported(t, source, i)
    ensures i.direction == t.direction
  {
  }
}
