/** The undirected graph of code entities that the clustering runs on. */
module EntityGraph {
  import opened Collections
  import opened Wrappers

  type Adjacency = map<string, set<string>>

  const MAX_FILE_ENTITIES := 30

  /** Entities in the order they were loaded, each with its file if one is known. */
  datatype Entities = Entities(order: seq<string>, file: map<string, Option<string>>)

  ghost predicate EntitiesOk(d: Entities) {
    Distinct(d.order) && forall id :: id in d.order <==> id in d.file
  }

  datatype Row = Row(id: string, file: Option<string>)

  datatype Relation = Relation(source: string, target: string)

  /** A dictionary filled row by row: an id seen again keeps its place and takes the new file. */
  function Load(rows: seq<Row>): (d: Entities)
    ensures EntitiesOk(d)
  {
    if rows == [] then Entities([], map[])
    else
      var d, row := Load(rows[..|rows| - 1]), rows[|rows| - 1];
      Entities(if row.id in d.file then d.order else d.order + [row.id], d.file[row.id := row.file])
  }

  /**
   What the rows say: just their ids are loaded, each with the file of its last row and at the place
   that counts the ids first seen before it.
   */
  lemma LoadExact(rows: seq<Row>, i: nat)
    requires i < |rows|
    ensures rows[i].id in Load(rows).file
    ensures (forall k :: i < k < |rows| ==> rows[k].id != rows[i].id) ==> Load(rows).file[rows[i].id] == rows[i].file
    ensures (forall k :: 0 <= k < i ==> rows[k].id != rows[i].id) ==>
              var before := |Load(rows[..i]).order|;
              before < |Load(rows).order| && Load(rows).order[before] == rows[i].id
    ensures forall id :: id in Load(rows).file ==> exists k :: 0 <= k < |rows| && rows[k].id == id
  {
    LoadIds(rows);
    hide Load;
    if forall k :: i < k < |rows| ==> rows[k].id != rows[i].id { LoadFile(rows, i); }
    if forall k :: 0 <= k < i ==> rows[k].id != rows[i].id { LoadPlace(rows, i); }
  }

  lemma {:induction false} LoadFile(rows: seq<Row>, i: nat)
    requires i < |rows| && forall k :: i < k < |rows| ==> rows[k].id != rows[i].id
    ensures rows[i].id in Load(rows).file && Load(rows).file[rows[i].id] == rows[i].file
  {
    var front := rows[..|rows| - 1];
    if i < |front| {
      assert forall k :: 0 <= k < |front| ==> front[k] == rows[k];
      LoadFile(front, i);
    }
  }

  lemma {:induction false} LoadPlace(rows: seq<Row>, i: nat)
    requires i < |rows| && forall k :: 0 <= k < i ==> rows[k].id != rows[i].id
    ensures var before := |Load(rows[..i]).order|;
            before < |Load(rows).order| && Load(rows).order[before] == rows[i].id
  {
    var front := rows[..|rows| - 1];
    if i < |front| {
      assert front[..i] == rows[..i] && front[i] == rows[i];
      assert forall k :: 0 <= k < i ==> front[k] == rows[k];
      LoadPlace(front, i);
    } else {
      assert front == rows[..i];
      LoadIds(front);
    }
  }

  lemma {:induction false} LoadIds(rows: seq<Row>)
    ensures forall id :: id in Load(rows).file <==> exists k :: 0 <= k < |rows| && rows[k].id == id
  {
    if rows != [] {
      var front := rows[..|rows| - 1];
      LoadIds(front);
      assert rows[|rows| - 1].id == rows[|rows| - 1].id;
      forall k | 0 <= k < |front| ensures rows[k] == front[k] {}
    }
  }

  function Members(order: seq<string>, file: map<string, Option<string>>, path: string): seq<string> {
    Filter(order, (id: string) => id in file && file[id] == Some(path))
  }

  // ----- what the graph is meant to be -----

  ghost predicate Related(rels: seq<Relation>, a: string, b: string) {
    exists r :: r in rels && ((r.source == a && r.target == b) || (r.source == b && r.target == a))
  }

  /** Two entities of one file, when the file holds at most thirty. */
  ghost predicate ShareFile(d: Entities, a: string, b: string) {
    && a in d.file && b in d.file && a != b && d.file[a] == d.file[b] && d.file[a].Some? && d.file[a].value != ""
    && |Members(d.order, d.file, d.file[a].value)| <= 30
  }

  ghost predicate Symmetric(adj: Adjacency) {
    forall a, b :: a in adj && b in adj[a] ==> b in adj && a in adj[b]
  }

  // ----- building it -----

  function Join(adj: Adjacency, a: string, b: string): Adjacency
    requires a in adj && b in adj
  {
    var once := adj[a := adj[a] + {b}];
    once[b := once[b] + {a}]
  }

  lemma JoinAdds(adj: Adjacency, a: string, b: string)
    requires a in adj && b in adj
    ensures Join(adj, a, b).Keys == adj.Keys
    ensures forall x, y :: x in adj ==>
              (y in Join(adj, a, b)[x] <==> y in adj[x] || (x == a && y == b) || (x == b && y == a))
  {
  }

  method AddRelations(d: Entities, rels: seq<Relation>) returns (adj: Adjacency)
    requires EntitiesOk(d)
    ensures adj.Keys == d.file.Keys
    ensures forall a, b :: a in adj ==> (b in adj[a] <==> b in adj && Related(rels, a, b))
  {
    adj := map id | id in d.file :: {};
    assert JoinedBy(adj, rels[..0]);
    for i := 0 to |rels|
      invariant adj.Keys == d.file.Keys && JoinedBy(adj, rels[..i])
    {
      hide *;
      var r := rels[i];
      JoinedStep(adj, rels[..i], r);
      TakeNext(rels, i);
      if r.source in adj && r.target in adj {
        adj := Join(adj, r.source, r.target);
      }
    }
    TakeAll(rels);
  }

  /** The neighbours so far are exactly those that these relations make. */
  ghost predicate JoinedBy(adj: Adjacency, rels: seq<Relation>) {
    forall a, b :: a in adj ==> (b in adj[a] <==> b in adj && Related(rels, a, b))
  }

  lemma JoinedStep(adj: Adjacency, rels: seq<Relation>, r: Relation)
    requires JoinedBy(adj, rels)
    ensures var next := if r.source in adj && r.target in adj then Join(adj, r.source, r.target) else adj;
            next.Keys == adj.Keys && JoinedBy(next, rels + [r])
  {
    RelatedSnoc(rels, r);
    hide Related;
    if r.source in adj && r.target in adj {
      JoinAdds(adj, r.source, r.target);
      hide Join;
    }
  }

  lemma RelatedSnoc(rels: seq<Relation>, r: Relation)
    ensures forall a, b :: Related(rels + [r], a, b) <==>
              Related(rels, a, b) || (r.source == a && r.target == b) || (r.source == b && r.target == a)
  {
    forall a, b | (r.source == a && r.target == b) || (r.source == b && r.target == a)
      ensures Related(rels + [r], a, b)
    {
      assert (rels + [r])[|rels|] == r;
      assert r in rels + [r];
    }
    forall a, b | Related(rels, a, b) ensures Related(rels + [r], a, b) {
      var s :| s in rels && ((s.source == a && s.target == b) || (s.source == b && s.target == a));
      assert s in rels + [r];
    }
  }

  /** All pairs of one file's entities. */
  method JoinAll(adj: Adjacency, ids: seq<string>) returns (r: Adjacency)
    requires Distinct(ids) && forall id :: id in ids ==> id in adj
    ensures r.Keys == adj.Keys
    ensures forall a, b :: a in r ==> (b in r[a] <==> b in adj[a] || (a in ids && b in ids && a != b))
  {
    r := adj;
    for i := 0 to |ids|
      invariant r.Keys == adj.Keys
      invariant forall a, b :: a in r ==> (b in r[a] <==> b in adj[a] || PairBefore(ids, i, a, b))
    {
      ghost var outer := r;
      for j := i + 1 to |ids|
        invariant r.Keys == adj.Keys
        invariant forall a, b :: a in r ==>
          (b in r[a] <==> b in outer[a] || (a == ids[i] && b in ids[i + 1..j]) || (b == ids[i] && a in ids[i + 1..j]))
      {
        assert ids[i + 1..j + 1] == ids[i + 1..j] + [ids[j]];
        JoinAdds(r, ids[i], ids[j]);
        r := Join(r, ids[i], ids[j]);
      }
      PairStep(ids, i);
    }
    PairsAll(ids);
  }

  /** `a` and `b` stand at two different places of `ids`, the earlier of them before place `i`. */
  ghost predicate PairBefore(ids: seq<string>, i: nat, a: string, b: string)
    requires i <= |ids|
  {
    exists k, l :: 0 <= k < i && k < l < |ids| && ((a == ids[k] && b == ids[l]) || (b == ids[k] && a == ids[l]))
  }

  lemma PairStep(ids: seq<string>, i: nat)
    requires i < |ids|
    ensures forall a, b :: PairBefore(ids, i + 1, a, b) <==>
              PairBefore(ids, i, a, b) || (a == ids[i] && b in ids[i + 1..]) || (b == ids[i] && a in ids[i + 1..])
  {
    forall a, b ensures PairBefore(ids, i + 1, a, b) <==>
        PairBefore(ids, i, a, b) || (a == ids[i] && b in ids[i + 1..]) || (b == ids[i] && a in ids[i + 1..])
    {
      if a == ids[i] && b in ids[i + 1..] {
        var l :| 0 <= l < |ids| - i - 1 && ids[i + 1..][l] == b;
        assert ids[i + 1 + l] == b;
      }
      if b == ids[i] && a in ids[i + 1..] {
        var l :| 0 <= l < |ids| - i - 1 && ids[i + 1..][l] == a;
        assert ids[i + 1 + l] == a;
      }
      if PairBefore(ids, i + 1, a, b) && !PairBefore(ids, i, a, b) {
        var k, l :| 0 <= k < i + 1 && k < l < |ids| && ((a == ids[k] && b == ids[l]) || (b == ids[k] && a == ids[l]));
        assert k == i && ids[i + 1..][l - i - 1] == ids[l];
      }
    }
  }

  lemma PairsAll(ids: seq<string>)
    requires Distinct(ids)
    ensures forall a, b :: PairBefore(ids, |ids|, a, b) <==> a in ids && b in ids && a != b
  {
    forall a, b | a in ids && b in ids && a != b ensures PairBefore(ids, |ids|, a, b) {
      var k :| 0 <= k < |ids| && ids[k] == a;
      var l :| 0 <= l < |ids| && ids[l] == b;
      assert k < l || l < k;
    }
  }

  /** The entity's file is known. */
  predicate Filed(d: Entities, id: string) { id in d.file && d.file[id].Some? && d.file[id].value != "" }

  ghost predicate GroupsOk(d: Entities, seen: seq<string>, paths: seq<string>, members: map<string, seq<string>>) {
    && Distinct(paths) && (forall p :: p in paths <==> p in members) && "" !in members
    && (forall p :: p != "" ==> Bucket(members, p) == Members(seen, d.file, p))
    && (forall id :: id in seen && Filed(d, id) ==> d.file[id].value in members)
  }

  function Bucket(members: map<string, seq<string>>, p: string): seq<string> {
    if p in members then members[p] else []
  }

  lemma GroupUnfiled(d: Entities, seen: seq<string>, id: string, paths: seq<string>, members: map<string, seq<string>>)
    requires GroupsOk(d, seen, paths, members) && id in d.file && !Filed(d, id)
    ensures GroupsOk(d, seen + [id], paths, members)
  {
    forall p | p != "" ensures Members(seen + [id], d.file, p) == Members(seen, d.file, p) {
      MembersSnoc(seen, d.file, id, p);
      assert Members(seen, d.file, p) + [] == Members(seen, d.file, p);
    }
    hide Members, Distinct, Bucket;
  }

  lemma GroupFiled(
    d: Entities, seen: seq<string>, id: string, paths: seq<string>, members: map<string, seq<string>>, p: string)
    requires GroupsOk(d, seen, paths, members) && Filed(d, id) && d.file[id].value == p
    ensures GroupsOk(d, seen + [id], if p in members then paths else paths + [p],
                     members[p := Bucket(members, p) + [id]])
  {
    var members' := members[p := Bucket(members, p) + [id]];
    DistinctSnoc(paths, p);
    hide Distinct;
    forall q | q != "" ensures Bucket(members', q) == Members(seen + [id], d.file, q) {
      MembersSnoc(seen, d.file, id, q);
      hide Members;
      assert Members(seen, d.file, q) + [] == Members(seen, d.file, q);
    }
    hide Members;
    forall x | x in seen + [id] && Filed(d, x) ensures d.file[x].value in members' {
      assert x in seen || x == id;
    }
  }

  lemma GroupStep(
    d: Entities, seen: seq<string>, id: string, paths: seq<string>, members: map<string, seq<string>>,
    paths': seq<string>, members': map<string, seq<string>>)
    requires GroupsOk(d, seen, paths, members) && id in d.file
    requires if Filed(d, id) then
               var p := d.file[id].value;
               && paths' == (if p in members then paths else paths + [p])
               && members' == members[p := Bucket(members, p) + [id]]
             else paths' == paths && members' == members
    ensures GroupsOk(d, seen + [id], paths', members')
  {
    hide GroupsOk, Bucket;
    if Filed(d, id) {
      GroupFiled(d, seen, id, paths, members, d.file[id].value);
    } else {
      GroupUnfiled(d, seen, id, paths, members);
    }
  }

  lemma NoGroups(d: Entities)
    ensures GroupsOk(d, d.order[..0], [], map[])
  {
  }

  /** `file_to_entities`: the files in order of first mention, each with its entities in order. */
  method GroupByFile(d: Entities) returns (paths: seq<string>, members: map<string, seq<string>>)
    requires EntitiesOk(d)
    ensures GroupsOk(d, d.order, paths, members)
  {
    paths, members := [], map[];
    NoGroups(d);
    assert forall id :: id in d.order ==> id in d.file;
    for i := 0 to |d.order|
      invariant GroupsOk(d, d.order[..i], paths, members)
    {
      hide *;
      var id := d.order[i];
      ghost var paths0, members0 := paths, members;
      if Filed(d, id) {
        var p := d.file[id].value;
        if p !in members {
          paths := paths + [p];
        }
        members := members[p := Bucket(members, p) + [id]];
      }
      GroupStep(d, d.order[..i], id, paths0, members0, paths, members);
      TakeNext(d.order, i);
    }
    TakeAll(d.order);
  }

  lemma MembersSnoc(order: seq<string>, file: map<string, Option<string>>, id: string, path: string)
    requires id in file
    ensures Members(order + [id], file, path)
         == Members(order, file, path) + (if file[id] == Some(path) then [id] else [])
  {
    FilterConcat(order, [id], (x: string) => x in file && file[x] == Some(path));
    assert [id][1..] == [];
  }

  /**
   Two entities are neighbours exactly when a relation joins them, either way round, or they share
   a file of at most thirty entities; so the graph is symmetric and stays among the entities.
   */
  method LoadGraph(rows: seq<Row>, rels: seq<Relation>) returns (adj: Adjacency, d: Entities)
    ensures d == Load(rows) && adj.Keys == d.file.Keys
    ensures forall a, b :: a in adj ==> (b in adj[a] <==> b in adj && (Related(rels, a, b) || ShareFile(d, a, b)))
    ensures Symmetric(adj)
  {
    d := Load(rows);
    adj := AddRelations(d, rels);
    var paths, members := GroupByFile(d);
    hide *;
    var related := adj;
    adj := AddFiles(d, related, paths, members);
    SharesAll(d, paths, members);
    Combine(d, rels, paths, related, adj);
  }

  lemma Combine(d: Entities, rels: seq<Relation>, paths: seq<string>, related: Adjacency, adj: Adjacency)
    requires related.Keys == adj.Keys == d.file.Keys
    requires forall a, b :: a in related ==> (b in related[a] <==> b in related && Related(rels, a, b))
    requires forall a, b :: a in adj ==> (b in adj[a] <==> b in related[a] || SharesOneOf(d, paths, a, b))
    requires forall a, b :: SharesOneOf(d, paths, a, b) <==> ShareFile(d, a, b)
    ensures forall a, b :: a in adj ==> (b in adj[a] <==> b in adj && (Related(rels, a, b) || ShareFile(d, a, b)))
    ensures Symmetric(adj)
  {
    hide Related, ShareFile, SharesOneOf;
    forall a, b | a in adj ensures b in adj[a] <==> (b in adj && Related(rels, a, b)) || ShareFile(d, a, b) {
      assert a in related;
    }
    RelationsSymmetric(d, rels, adj);
  }

  method AddFiles(
    d: Entities, adj: Adjacency, paths: seq<string>, members: map<string, seq<string>>) returns (r: Adjacency)
    requires EntitiesOk(d) && adj.Keys == d.file.Keys && GroupsOk(d, d.order, paths, members)
    ensures r.Keys == adj.Keys
    ensures forall a, b :: a in r ==> (b in r[a] <==> b in adj[a] || SharesOneOf(d, paths, a, b))
  {
    r := adj;
    SharesNone(d, paths);
    hide *;
    for i := 0 to |paths|
      invariant r.Keys == adj.Keys
      invariant forall a, b :: a in r ==> (b in r[a] <==> b in adj[a] || SharesOneOf(d, paths[..i], a, b))
    {
      PathMembers(d, paths, members, paths[i]);
      SharesSnoc(d, paths[..i], paths[i]);
      assert paths[..i + 1] == paths[..i] + [paths[i]];
      r := AddFile(d, r, paths[i], members[paths[i]]);
    }
    assert paths[..|paths|] == paths;
  }

  ghost predicate SharesOneOf(d: Entities, paths: seq<string>, a: string, b: string) {
    ShareFile(d, a, b) && d.file[a].value in paths
  }

  lemma SharesNone(d: Entities, paths: seq<string>)
    ensures forall a, b :: !SharesOneOf(d, paths[..0], a, b)
  {
  }

  lemma SharesSnoc(d: Entities, paths: seq<string>, p: string)
    ensures forall a, b :: SharesOneOf(d, paths + [p], a, b) <==>
              SharesOneOf(d, paths, a, b) || (ShareFile(d, a, b) && d.file[a].value == p)
  {
  }

  lemma PathMembers(d: Entities, paths: seq<string>, members: map<string, seq<string>>, p: string)
    requires GroupsOk(d, d.order, paths, members) && p in paths
    ensures p in members && p != "" && members[p] == Members(d.order, d.file, p)
  {
    assert Bucket(members, p) == members[p];
  }

  lemma SharesAll(d: Entities, paths: seq<string>, members: map<string, seq<string>>)
    requires EntitiesOk(d) && GroupsOk(d, d.order, paths, members)
    ensures forall a, b :: SharesOneOf(d, paths, a, b) <==> ShareFile(d, a, b)
  {
  }

  lemma RelationsSymmetric(d: Entities, rels: seq<Relation>, adj: Adjacency)
    requires adj.Keys == d.file.Keys
    requires forall a, b :: a in adj ==> (b in adj[a] <==> (b in adj && Related(rels, a, b)) || ShareFile(d, a, b))
    ensures forall a, b :: a in adj ==> (b in adj[a] <==> b in adj && (Related(rels, a, b) || ShareFile(d, a, b)))
    ensures Symmetric(adj)
  {
    assert forall a, b :: Related(rels, a, b) <==> Related(rels, b, a);
    assert forall a, b :: ShareFile(d, a, b) ==> ShareFile(d, b, a) && b in d.file;
    hide Related, ShareFile;
  }

  /** The virtual edges of one file. */
  method AddFile(d: Entities, adj: Adjacency, path: string, ids: seq<string>) returns (r: Adjacency)
    requires EntitiesOk(d) && adj.Keys == d.file.Keys && path != "" && ids == Members(d.order, d.file, path)
    ensures r.Keys == adj.Keys
    ensures forall a, b :: a in r ==> (b in r[a] <==> b in adj[a] || (ShareFile(d, a, b) && d.file[a].value == path))
  {
    r := adj;
    FileDistinct(d, path);
    FileMembers(d, path);
    hide *;
    if |ids| <= 1 {
      return;
    }
    if |ids| > MAX_FILE_ENTITIES {
      return;
    }
    r := JoinAll(adj, ids);
  }

  lemma FileDistinct(d: Entities, path: string)
    requires EntitiesOk(d)
    ensures var ids := Members(d.order, d.file, path);
            && Distinct(ids) && (forall id :: id in ids ==> id in d.file)
            && (|ids| <= 1 ==> forall a, b :: a in ids && b in ids ==> a == b)
  {
    FilterDistinct(d.order, (x: string) => x in d.file && d.file[x] == Some(path));
  }

  lemma FileMembers(d: Entities, path: string)
    requires EntitiesOk(d) && path != ""
    ensures var ids := Members(d.order, d.file, path);
            forall a, b :: a != b && a in ids && b in ids && |ids| <= MAX_FILE_ENTITIES <==>
              ShareFile(d, a, b) && d.file[a].value == path
  {
  }

  // ----- counting undirected edges -----

  /** The edges from `v` to the nodes of `s`. */
  ghost function Star(v: string, s: set<string>): set<set<string>> { set w | w in s :: {v, w} }

  lemma {:induction false} StarSize(v: string, s: set<string>)
    ensures |Star(v, s)| == |s|
    decreases s
  {
    if s != {} {
      var w :| w in s;
      StarSize(v, s - {w});
      assert Star(v, s) == Star(v, s - {w}) + {{v, w}};
      assert {v, w} !in Star(v, s - {w}) by {
        forall x | x in s - {w} ensures {v, x} != {v, w} {
          assert x == v || x !in {v, w};
          assert w == v || w !in {v, x};
        }
      }
    } else {
      assert Star(v, s) == {};
    }
  }

  lemma SubsetSize<T>(a: set<T>, b: set<T>)
    requires a <= b
    ensures |a| <= |b| && (|a| == |b| <==> a == b)
  {
    assert b == a + (b - a);
    assert |b| == |a| + |b - a|;
  }
}
