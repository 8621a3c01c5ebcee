/** Relation types are compared and reported in lower case: how the store spells them does not matter. */
module RelationCase {
  import opened Collections
  import opened ImpactSearch

  /** `low` is `s` with each ASCII capital replaced by its small letter, 32 code points on. */
  ghost predicate LowerCaseOf(low: string, s: string) {
    |low| == |s|
    && forall i :: 0 <= i < |s| ==> low[i] as int == if 'A' <= s[i] <= 'Z' then s[i] as int + 32 else s[i] as int
  }

  /** The texts differ at most in the case of ASCII letters. */
  ghost predicate SameLetters(a: string, b: string) {
    |a| == |b|
    && forall i :: 0 <= i < |a| ==>
         || a[i] == b[i]
         || ('A' <= a[i] <= 'Z' && b[i] as int == a[i] as int + 32)
         || ('A' <= b[i] <= 'Z' && a[i] as int == b[i] as int + 32)
  }

  /** The weight of a key for a change, and the decay of a depth; zero where the tables say nothing. */
  ghost function TableScore(c: Settings, key: string, change: ChangeType, depth: nat): real {
    if key in c.weights && change in c.weights[key] && depth in c.decay then c.weights[key][change] * c.decay[depth]
    else 0.0
  }

  lemma LowerIs(low: string, s: string)
    ensures LowerCaseOf(low, s) <==> low == Lower(s)
  {
    if LowerCaseOf(low, s) {
      forall i | 0 <= i < |s| ensures low[i] == Lower(s)[i] {}
    }
  }

  /**
   A walk is worth what the tables give for the lower-case spelling of its last relation at its length,
   and its labels are the lower-case spellings of its relations in order.
   */
  lemma {:induction false} WalkScore(t: Task, rs: seq<Rel>)
    ensures |Labels(rs)| == |rs| && forall i :: 0 <= i < |rs| ==> LowerCaseOf(Labels(rs)[i], rs[i].relType)
    ensures forall key :: rs != [] && LowerCaseOf(key, rs[|rs| - 1].relType) ==>
              Worth(t, rs) == TableScore(t.settings, key, t.change, |rs|)
  {
    if rs != [] {
      var last := rs[|rs| - 1].relType;
      WalkScore(t, rs[..|rs| - 1]);
      LowerIs(Lower(last), last);
      forall key | LowerCaseOf(key, last) ensures Worth(t, rs) == TableScore(t.settings, key, t.change, |rs|) {
        LowerIs(key, last);
      }
    }
  }

  // ----- stores that differ in the spelling only -----

  ghost predicate SameRelation(r: Rel, s: Rel) {
    r.source == s.source && r.target == s.target && SameLetters(r.relType, s.relType)
  }

  ghost predicate SameRelations(rs: seq<Rel>, ss: seq<Rel>) {
    |rs| == |ss| && forall i :: 0 <= i < |rs| ==> SameRelation(rs[i], ss[i])
  }

  lemma SameLower(a: string, b: string)
    requires SameLetters(a, b)
    ensures Lower(a) == Lower(b)
  {
    forall i | 0 <= i < |a| ensures LowerChar(a[i]) == LowerChar(b[i]) {}
    assert forall i :: 0 <= i < |a| ==> Lower(a)[i] == LowerChar(a[i]) && Lower(b)[i] == LowerChar(b[i]);
  }

  lemma {:induction false} SameHops(
    t: Task, u: Task, source: string, depth: nat, path: seq<string>, rs: seq<Rel>, ss: seq<Rel>, p: Progress)
    requires t == u.(store := t.store) && t.store.nodes == u.store.nodes && SameRelations(rs, ss)
    ensures HopAll(t, source, depth, path, rs, p) == HopAll(u, source, depth, path, ss, p)
  {
    if rs != [] {
      assert SameRelation(rs[0], ss[0]);
      SameLower(rs[0].relType, ss[0].relType);
      assert Hop(t, source, depth, path, rs[0], p) == Hop(u, source, depth, path, ss[0], p) by { hide Lower; }
      hide Hop;
      SameHops(t, u, source, depth, path, rs[1..], ss[1..], Hop(t, source, depth, path, rs[0], p));
    }
  }

  lemma {:induction false} SameIncident(d: Direction, rs: seq<Rel>, ss: seq<Rel>, id: string)
    requires SameRelations(rs, ss)
    ensures SameRelations(Filter(rs, (r: Rel) => NearEnd(d, r) == id), Filter(ss, (r: Rel) => NearEnd(d, r) == id))
  {
    hide SameLetters;
    if rs != [] {
      assert SameRelation(rs[0], ss[0]);
      SameIncident(d, rs[1..], ss[1..], id);
    }
  }

  ghost predicate SameStores(s: Store, s': Store) { SameRelations(s.relations, s'.relations) && s.nodes == s'.nodes }

  lemma {:induction false} SameLayers(
    t: Task, u: Task, source: string, depth: nat, frontier: Layer, todo: seq<string>, p: Progress)
    requires t == u.(store := t.store) && SameStores(t.store, u.store)
    requires forall id :: id in todo ==> id in frontier.entries
    ensures ExpandAll(t, source, depth, frontier, todo, p) == ExpandAll(u, source, depth, frontier, todo, p)
  {
    if todo != [] {
      var path, rs, ss := frontier.entries[todo[0]].path, Incident(t, todo[0]), Incident(u, todo[0]);
      SameIncident(t.direction, t.store.relations, u.store.relations, todo[0]);
      SameHops(t, u, source, depth, path, rs, ss, p);
      hide Incident, HopAll, SameRelations;
      SameLayers(t, u, source, depth, frontier, todo[1..], HopAll(t, source, depth, path, rs, p));
    }
  }

  lemma {:induction false} SameSearches(
    t: Task, u: Task, source: string, depth: nat, frontier: Layer, visited: map<string, real>,
    impacts: seq<ImpactedNode>)
    requires t == u.(store := t.store) && SameStores(t.store, u.store) && LayerOk(frontier)
    ensures SearchFrom(t, source, depth, frontier, visited, impacts)
         == SearchFrom(u, source, depth, frontier, visited, impacts)
    decreases t.settings.maxDepth + 1 - depth
  {
    if depth <= t.settings.maxDepth && Decay(t.settings, depth) != 0.0 {
      var start := Progress(visited, EMPTY_LAYER, impacts);
      ExpandAllLayerOk(t, source, depth, frontier, frontier.order, start);
      SameLayers(t, u, source, depth, frontier, frontier.order, start);
      var p := ExpandAll(t, source, depth, frontier, frontier.order, start);
      hide ExpandAll;
      SameSearches(t, u, source, depth + 1, p.next, p.visited, p.impacts);
    }
  }

  /** Two stores whose relation types differ only in the case of letters give the same records and paths. */
  lemma SpellingDoesNotMatter(t: Task, store: Store, source: string)
    requires SameStores(t.store, store)
    ensures Search(t, source) == Search(t.(store := store), source)
  {
    SameSearches(t, t.(store := store), source, 1, FirstLayer(source), map[source := 1.0], []);
  }

  // ----- one upper-case relation under the default tables -----

  const CALLS_ONLY := Settings(map["calls" := map[Body := 0.7]], map[1 := 1.0, 2 := 0.6, 3 := 0.3], 3, 0.05)

  /** A stored CALLS relation reports the caller of a changed body under the label calls. */
  lemma CallerReported(info: NodeInfo)
    ensures var store := Store([Rel("b", "a", "CALLS")], map["a" := info, "b" := info]);
            Search(Task(store, CALLS_ONLY, Body, Forward), "a")
            == [ImpactedNode("b", info.nodeLabel, info.name, info.filePath, 0.7, High, 1, Forward, ["calls"], "a")]
  {
    LowerIs("calls", "CALLS");
    var r, store := Rel("b", "a", "CALLS"), Store([Rel("b", "a", "CALLS")], map["a" := info, "b" := info]);
    var t := Task(store, CALLS_ONLY, Body, Forward);
    assert store.relations[1..] == [] && Incident(t, "a") == [r] && Incident(t, "b") == [];
    assert HopScore(t, r, 1) == 0.7;
    var first := Progress(map["a" := 1.0], EMPTY_LAYER, []);
    var record := Record(t, "a", "b", info, 0.7, 1, ["calls"]);
    var found := Progress(map["a" := 1.0, "b" := 0.7], Layer(["b"], map["b" := Entry(0.7, ["calls"])]), [record]);
    assert [] + ["calls"] == ["calls"] && [] + ["b"] == ["b"] && [] + [record] == [record];
    assert Hop(t, "a", 1, [], r, first) == found;
    assert [r][1..] == [] && HopAll(t, "a", 1, [], [r], first) == found;
    assert ["a"][1..] == [] && ExpandAll(t, "a", 1, FirstLayer("a"), ["a"], first) == found;
    var second := Progress(found.visited, EMPTY_LAYER, found.impacts);
    assert ["b"][1..] == [] && ExpandAll(t, "a", 2, found.next, ["b"], second) == second;
    assert SearchFrom(t, "a", 2, found.next, found.visited, found.impacts) == found.impacts;
  }
}
