/**
 The layered search of the impact propagator, and why its pruning loses nothing.

 A hop's score is the weight of its relation times the decay of its depth, whatever came before
 it. A node is taken up again only on a strictly better score. `Admissible` says, without layers or
 pruning, which walks count; `SearchOptimal` compares the two.
 */
module ImpactSearch {
  import opened Collections
  import opened Wrappers

  datatype Direction = Forward | Backward

  datatype ChangeType = Added | Deleted | Signature | Body | DocOnly

  datatype Severity = Critical | High | Medium | Low

  datatype Rel = Rel(source: string, target: string, relType: string)

  datatype NodeInfo = NodeInfo(nodeLabel: string, name: string, filePath: Option<string>)

  datatype Store = Store(relations: seq<Rel>, nodes: map<string, NodeInfo>)

  datatype Settings = Settings(
    weights: map<string, map<ChangeType, real>>, decay: map<nat, real>, maxDepth: nat, threshold: real)

  /** One search: the stored graph, the tables, and which way and for which change it looks. */
  datatype Task = Task(store: Store, settings: Settings, change: ChangeType, direction: Direction)

  datatype ImpactedNode = ImpactedNode(
    nodeId: string, nodeLabel: string, name: string, filePath: Option<string>, score: real, severity: Severity,
    depth: nat, direction: Direction, relationPath: seq<string>, sourceId: string)

  function FromScore(score: real): Severity {
    if score >= 0.8 then Critical else if score >= 0.5 then High else if score >= 0.2 then Medium else Low
  }

  function LowerChar(c: char): char {
    if 'A' <= c <= 'Z' then (c as int + 32) as char else c
  }

  /** `str.lower` on the ASCII names of relation types. */
  function Lower(s: string): string { seq(|s|, i requires 0 <= i < |s| => LowerChar(s[i])) }

  function Decay(c: Settings, depth: nat): real { if depth in c.decay then c.decay[depth] else 0.0 }

  function ComputeScore(c: Settings, relType: string, change: ChangeType, depth: nat): real {
    if relType !in c.weights then 0.0
    else
      var w := c.weights[relType];
      (if change in w then w[change] else 0.0) * Decay(c, depth)
  }

  /** Forward asks who points at a node, backward whom it points at. */
  function NearEnd(d: Direction, r: Rel): string { if d.Forward? then r.target else r.source }

  function FarEnd(d: Direction, r: Rel): string { if d.Forward? then r.source else r.target }

  function Incident(t: Task, id: string): seq<Rel> {
    Filter(t.store.relations, (r: Rel) => NearEnd(t.direction, r) == id)
  }

  function HopScore(t: Task, r: Rel, depth: nat): real {
    ComputeScore(t.settings, Lower(r.relType), t.change, depth)
  }

  // ----- the search -----

  datatype Entry = Entry(score: real, path: seq<string>)

  /** An insertion-ordered dictionary. */
  datatype Layer = Layer(order: seq<string>, entries: map<string, Entry>)

  function Put(l: Layer, id: string, e: Entry): Layer {
    Layer(if id in l.entries then l.order else l.order + [id], l.entries[id := e])
  }

  datatype Progress = Progress(visited: map<string, real>, next: Layer, impacts: seq<ImpactedNode>)

  function Record(
    t: Task, source: string, id: string, info: NodeInfo, score: real, depth: nat, path: seq<string>): ImpactedNode
  {
    ImpactedNode(
      id, info.nodeLabel, info.name, info.filePath, score, FromScore(score), depth, t.direction, path, source)
  }

  function Hop(t: Task, source: string, depth: nat, path: seq<string>, r: Rel, p: Progress): Progress {
    var id := FarEnd(t.direction, r);
    var score := HopScore(t, r, depth);
    if id == source || score < t.settings.threshold || (id in p.visited && score <= p.visited[id]) then p
    else
      var visited := p.visited[id := score];
      if id !in t.store.nodes then p.(visited := visited)
      else
        var newPath := path + [Lower(r.relType)];
        Progress(visited, Put(p.next, id, Entry(score, newPath)),
                 p.impacts + [Record(t, source, id, t.store.nodes[id], score, depth, newPath)])
  }

  function HopAll(t: Task, source: string, depth: nat, path: seq<string>, rs: seq<Rel>, p: Progress): Progress {
    if rs == [] then p else HopAll(t, source, depth, path, rs[1..], Hop(t, source, depth, path, rs[0], p))
  }

  ghost predicate LayerOk(l: Layer) { forall id :: id in l.order <==> id in l.entries }

  function ExpandAll(t: Task, source: string, depth: nat, frontier: Layer, todo: seq<string>, p: Progress): Progress
    requires forall id :: id in todo ==> id in frontier.entries
  {
    if todo == [] then p
    else
      var q := HopAll(t, source, depth, frontier.entries[todo[0]].path, Incident(t, todo[0]), p);
      ExpandAll(t, source, depth, frontier, todo[1..], q)
  }

  lemma {:induction false} HopAllLayerOk(
    t: Task, source: string, depth: nat, path: seq<string>, rs: seq<Rel>, p: Progress)
    requires LayerOk(p.next)
    ensures LayerOk(HopAll(t, source, depth, path, rs, p).next)
  {
    if rs != [] {
      HopAllLayerOk(t, source, depth, path, rs[1..], Hop(t, source, depth, path, rs[0], p));
    }
  }

  lemma {:induction false} ExpandAllLayerOk(
    t: Task, source: string, depth: nat, frontier: Layer, todo: seq<string>, p: Progress)
    requires LayerOk(p.next) && forall id :: id in todo ==> id in frontier.entries
    ensures LayerOk(ExpandAll(t, source, depth, frontier, todo, p).next)
  {
    if todo != [] {
      var path, rs := frontier.entries[todo[0]].path, Incident(t, todo[0]);
      HopAllLayerOk(t, source, depth, path, rs, p);
      ExpandAllLayerOk(t, source, depth, frontier, todo[1..], HopAll(t, source, depth, path, rs, p));
    }
  }

  const EMPTY_LAYER := Layer([], map[])

  function SearchFrom(
    t: Task, source: string, depth: nat, frontier: Layer, visited: map<string, real>, impacts: seq<ImpactedNode>)
    : seq<ImpactedNode>
    requires LayerOk(frontier)
    decreases t.settings.maxDepth + 1 - depth
  {
    if depth > t.settings.maxDepth || Decay(t.settings, depth) == 0.0 then impacts
    else
      var start := Progress(visited, EMPTY_LAYER, impacts);
      ExpandAllLayerOk(t, source, depth, frontier, frontier.order, start);
      var p := ExpandAll(t, source, depth, frontier, frontier.order, start);
      if p.next.order == [] || Decay(t.settings, depth + 1) == 0.0 then p.impacts
      else SearchFrom(t, source, depth + 1, p.next, p.visited, p.impacts)
  }

  function FirstLayer(source: string): Layer { Layer([source], map[source := Entry(1.0, [])]) }

  function Search(t: Task, source: string): seq<ImpactedNode> {
    SearchFrom(t, source, 1, FirstLayer(source), map[source := 1.0], [])
  }

  // ----- walks -----

  /** A walk goes against its relations when it looks for dependents, and along them otherwise. */
  function EndOf(t: Task, source: string, rs: seq<Rel>): string {
    if rs == [] then source
    else if t.direction == Forward then rs[|rs| - 1].source
    else rs[|rs| - 1].target
  }

  /** Each hop starts where the last one ended, avoids the source, meets the threshold and ends at a stored node. */
  ghost predicate Admissible(t: Task, source: string, rs: seq<Rel>) {
    rs == [] ||
    var r, prefix := rs[|rs| - 1], rs[..|rs| - 1];
    && Admissible(t, source, prefix)
    && r in t.store.relations && (if t.direction == Forward then r.target else r.source) == EndOf(t, source, prefix)
    && EndOf(t, source, rs) != source && EndOf(t, source, rs) in t.store.nodes
    && HopScore(t, r, |rs|) >= t.settings.threshold
  }

  function Labels(rs: seq<Rel>): seq<string> {
    if rs == [] then [] else Labels(rs[..|rs| - 1]) + [Lower(rs[|rs| - 1].relType)]
  }

  /** What a walk is worth: the score of its last hop. */
  function Worth(t: Task, rs: seq<Rel>): real
    requires rs != []
  {
    HopScore(t, rs[|rs| - 1], |rs|)
  }

  ghost predicate Leads(t: Task, source: string, rs: seq<Rel>, hops: nat, id: string, path: seq<string>) {
    Admissible(t, source, rs) && |rs| == hops && EndOf(t, source, rs) == id && Labels(rs) == path
  }

  ghost predicate Reached(t: Task, source: string, hops: nat, id: string, path: seq<string>) {
    exists rs :: Leads(t, source, rs, hops, id, path)
  }

  ghost predicate SeverityFits(severity: Severity, score: real) {
    match severity
    case Critical => score >= 0.8
    case High => 0.5 <= score < 0.8
    case Medium => 0.2 <= score < 0.5
    case Low => score < 0.2
  }

  /** The record shows the stored node, the source and the direction, and a severity that fits the score. */
  ghost predicate Shows(t: Task, source: string, i: ImpactedNode) {
    && i.nodeId in t.store.nodes && SeverityFits(i.severity, i.score)
    && NodeInfo(i.nodeLabel, i.name, i.filePath) == t.store.nodes[i.nodeId]
    && i.direction == t.direction && i.sourceId == source
  }

  /** The record describes an admissible walk to its node of exactly `depth` hops with its labels and worth. */
  ghost predicate Supported(t: Task, source: string, i: ImpactedNode) {
    exists rs :: && Leads(t, source, rs, i.depth, i.nodeId, i.relationPath) && rs != [] && Worth(t, rs) == i.score
                 && i.depth <= t.settings.maxDepth && Shows(t, source, i)
  }

  // ----- the invariant -----

  /** The hop is accounted for: its far end is at least as good as this hop would make it. */
  ghost predicate HopDone(
    t: Task, source: string, depth: nat, r: Rel, visited: map<string, real>, entered: map<string, nat>)
  {
    var id := FarEnd(t.direction, r);
    id != source && HopScore(t, r, depth) >= t.settings.threshold ==>
      && id in visited && visited[id] >= HopScore(t, r, depth)
      && (id in t.store.nodes ==> id in entered && entered[id] <= depth)
  }

  /** `entered` gives the first layer a node was in; all hops out of it one layer on are accounted for. */
  ghost predicate Settled(t: Task, source: string, u: string, visited: map<string, real>, entered: map<string, nat>)
    requires u in entered
  {
    forall r :: r in t.store.relations && NearEnd(t.direction, r) == u ==>
      HopDone(t, source, entered[u] + 1, r, visited, entered)
  }

  ghost predicate RecordsOk(t: Task, source: string, visited: map<string, real>, impacts: seq<ImpactedNode>) {
    && (forall i :: i in impacts ==> Supported(t, source, i) && i.nodeId in visited && i.score <= visited[i.nodeId])
    && (forall v :: v in visited && v != source && v in t.store.nodes ==>
          exists i :: i in impacts && i.nodeId == v && i.score == visited[v])
  }

  ghost predicate EnteredOk(
    t: Task, source: string, depth: nat, visited: map<string, real>, entered: map<string, nat>)
  {
    && source in visited && source in entered && entered[source] == 0
    && (forall v :: v in entered ==> entered[v] <= depth && (v != source ==> entered[v] >= 1))
    && (forall v :: v != source ==> (v in entered <==> v in visited && v in t.store.nodes))
  }

  /** While layer `depth` is expanded, with the nodes of `todo` still to come. */
  ghost predicate LayerInv(
    t: Task, source: string, depth: nat, todo: seq<string>, p: Progress, entered: map<string, nat>)
  {
    && depth >= 1 && EnteredOk(t, source, depth, p.visited, entered) && LayerOk(p.next)
    && RecordsOk(t, source, p.visited, p.impacts)
    && (forall u :: u in entered && (entered[u] < depth - 1 || (entered[u] == depth - 1 && u !in todo)) ==>
          Settled(t, source, u, p.visited, entered))
    && (forall v :: v in entered && entered[v] == depth ==> v in p.next.entries)
    && (forall v :: v in p.next.entries ==> Reached(t, source, depth, v, p.next.entries[v].path))
  }

  /** Nothing already known gets worse. */
  ghost predicate Grows(
    visited: map<string, real>, entered: map<string, nat>, visited': map<string, real>, entered': map<string, nat>)
  {
    && (forall v :: v in visited ==> v in visited' && visited[v] <= visited'[v])
    && (forall v :: v in entered ==> v in entered' && entered'[v] == entered[v])
  }

  lemma SettledGrows(
    t: Task, source: string, u: string, visited: map<string, real>, entered: map<string, nat>,
    visited': map<string, real>, entered': map<string, nat>)
    requires u in entered && Settled(t, source, u, visited, entered) && Grows(visited, entered, visited', entered')
    ensures u in entered' && Settled(t, source, u, visited', entered')
  {
    forall r | r in t.store.relations && NearEnd(t.direction, r) == u
      ensures HopDone(t, source, entered'[u] + 1, r, visited', entered')
    {
      assert HopDone(t, source, entered[u] + 1, r, visited, entered);
    }
  }

  lemma ExtendWalk(t: Task, source: string, depth: nat, u: string, path: seq<string>, r: Rel)
    requires depth >= 1 && Reached(t, source, depth - 1, u, path)
    requires r in t.store.relations && NearEnd(t.direction, r) == u
    requires FarEnd(t.direction, r) != source && FarEnd(t.direction, r) in t.store.nodes
    requires HopScore(t, r, depth) >= t.settings.threshold && depth <= t.settings.maxDepth
    ensures var id := FarEnd(t.direction, r);
            var newPath := path + [Lower(r.relType)];
            && Reached(t, source, depth, id, newPath)
            && Supported(t, source, Record(t, source, id, t.store.nodes[id], HopScore(t, r, depth), depth, newPath))
  {
    var id := FarEnd(t.direction, r);
    var newPath := path + [Lower(r.relType)];
    var rs :| Leads(t, source, rs, depth - 1, u, path);
    LongerWalk(t, source, u, path, rs, r);
    RecordShows(t, source, id, HopScore(t, r, depth), depth, newPath);
    hide Leads, FarEnd, NearEnd, HopScore, Lower, Shows, Record;
  }

  lemma LongerWalk(t: Task, source: string, u: string, path: seq<string>, rs: seq<Rel>, r: Rel)
    requires Leads(t, source, rs, |rs|, u, path) && r in t.store.relations && NearEnd(t.direction, r) == u
    requires FarEnd(t.direction, r) != source && FarEnd(t.direction, r) in t.store.nodes
    requires HopScore(t, r, |rs| + 1) >= t.settings.threshold
    ensures var longer := rs + [r];
            && Leads(t, source, longer, |rs| + 1, FarEnd(t.direction, r), path + [Lower(r.relType)])
            && longer != [] && Worth(t, longer) == HopScore(t, r, |rs| + 1)
  {
    hide HopScore, Lower;
    var longer := rs + [r];
    assert longer[..|longer| - 1] == rs && longer[|longer| - 1] == r;
  }

  lemma RecordShows(t: Task, source: string, id: string, score: real, depth: nat, path: seq<string>)
    requires id in t.store.nodes
    ensures var i := Record(t, source, id, t.store.nodes[id], score, depth, path);
            && Shows(t, source, i) && i.nodeId == id && i.score == score && i.depth == depth && i.relationPath == path
  {
  }

  lemma GrowsChain(
    v: map<string, real>, e: map<string, nat>, v': map<string, real>, e': map<string, nat>,
    v'': map<string, real>, e'': map<string, nat>)
    requires Grows(v, e, v', e') && Grows(v', e', v'', e'')
    ensures Grows(v, e, v'', e'')
  {
  }

  lemma HopDoneGrows(
    t: Task, source: string, depth: nat, r: Rel, visited: map<string, real>, entered: map<string, nat>,
    visited': map<string, real>, entered': map<string, nat>)
    requires HopDone(t, source, depth, r, visited, entered) && Grows(visited, entered, visited', entered')
    ensures HopDone(t, source, depth, r, visited', entered')
  {
  }

  /** Storing a better score for a node keeps the records exact. */
  lemma RecordsGrow(
    t: Task, source: string, visited: map<string, real>, impacts: seq<ImpactedNode>, i: ImpactedNode)
    requires RecordsOk(t, source, visited, impacts) && Supported(t, source, i)
    requires i.nodeId in visited ==> visited[i.nodeId] <= i.score
    ensures RecordsOk(t, source, visited[i.nodeId := i.score], impacts + [i])
  {
    hide Supported;
    var visited', impacts' := visited[i.nodeId := i.score], impacts + [i];
    assert forall k :: k in impacts' <==> k in impacts || k == i;
    forall v | v in visited' && v != source && v in t.store.nodes
      ensures exists k :: k in impacts' && k.nodeId == v && k.score == visited'[v]
    {
      if v == i.nodeId {
        assert impacts'[|impacts|] == i;
      } else {
        var k :| k in impacts && k.nodeId == v && k.score == visited[v];
        assert k in impacts';
      }
    }
  }

  /** A better score for a node that is not stored changes no record. */
  lemma RecordsUnstored(
    t: Task, source: string, visited: map<string, real>, impacts: seq<ImpactedNode>, id: string, score: real)
    requires RecordsOk(t, source, visited, impacts) && id !in t.store.nodes
    requires id in visited ==> visited[id] <= score
    ensures RecordsOk(t, source, visited[id := score], impacts)
  {
    assert forall i :: i in impacts ==> i.nodeId in t.store.nodes;
    hide Supported;
  }

  lemma SettledAll(
    t: Task, source: string, depth: nat, todo: seq<string>, visited: map<string, real>, entered: map<string, nat>,
    visited': map<string, real>, entered': map<string, nat>)
    requires depth >= 1 && Grows(visited, entered, visited', entered')
    requires forall v :: v in entered' && v !in entered ==> entered'[v] == depth
    requires forall u :: u in entered && (entered[u] < depth - 1 || (entered[u] == depth - 1 && u !in todo)) ==>
               Settled(t, source, u, visited, entered)
    ensures forall u :: u in entered' && (entered'[u] < depth - 1 || (entered'[u] == depth - 1 && u !in todo)) ==>
              Settled(t, source, u, visited', entered')
  {
    forall u | u in entered' && (entered'[u] < depth - 1 || (entered'[u] == depth - 1 && u !in todo))
      ensures Settled(t, source, u, visited', entered')
    {
      SettledGrows(t, source, u, visited, entered, visited', entered');
    }
  }

  lemma HopKeeps(
    t: Task, source: string, depth: nat, u: string, path: seq<string>, r: Rel, todo: seq<string>, p: Progress,
    entered: map<string, nat>) returns (entered': map<string, nat>)
    requires LayerInv(t, source, depth, todo, p, entered) && depth <= t.settings.maxDepth
    requires Reached(t, source, depth - 1, u, path) && r in t.store.relations && NearEnd(t.direction, r) == u
    ensures var q := Hop(t, source, depth, path, r, p);
            && LayerInv(t, source, depth, todo, q, entered') && Grows(p.visited, entered, q.visited, entered')
            && HopDone(t, source, depth, r, q.visited, entered')
  {
    var id := FarEnd(t.direction, r);
    var score := HopScore(t, r, depth);
    var q := Hop(t, source, depth, path, r, p);
    var newPath := path + [Lower(r.relType)];
    hide HopScore, Supported, Reached, Record, Lower, Settled, RecordsOk, NearEnd;
    if id == source || score < t.settings.threshold || (id in p.visited && score <= p.visited[id]) {
      entered' := entered;
      assert q == p;
    } else if id !in t.store.nodes {
      entered' := entered;
      RecordsUnstored(t, source, p.visited, p.impacts, id, score);
      SettledAll(t, source, depth, todo, p.visited, entered, q.visited, entered');
    } else {
      entered' := if id in entered then entered else entered[id := depth];
      var i := Record(t, source, id, t.store.nodes[id], score, depth, newPath);
      ExtendWalk(t, source, depth, u, path, r);
      RecordIds(t, source, id, score, depth, newPath);
      RecordsGrow(t, source, p.visited, p.impacts, i);
      assert q == Progress(p.visited[id := score], Put(p.next, id, Entry(score, newPath)), p.impacts + [i]);
      EnteredGrows(t, source, depth, p.visited, entered, id, score);
      hide Hop, EnteredOk, FarEnd;
      SettledAll(t, source, depth, todo, p.visited, entered, q.visited, entered');
    }
  }

  lemma EnteredGrows(
    t: Task, source: string, depth: nat, visited: map<string, real>, entered: map<string, nat>, id: string, score: real)
    requires EnteredOk(t, source, depth, visited, entered) && depth >= 1 && id != source && id in t.store.nodes
    requires id in visited ==> visited[id] <= score
    ensures var entered' := if id in entered then entered else entered[id := depth];
            && EnteredOk(t, source, depth, visited[id := score], entered')
            && Grows(visited, entered, visited[id := score], entered')
            && id in entered' && entered'[id] <= depth
  {
  }

  lemma RecordIds(t: Task, source: string, id: string, score: real, depth: nat, path: seq<string>)
    requires id in t.store.nodes
    ensures var i := Record(t, source, id, t.store.nodes[id], score, depth, path); i.nodeId == id && i.score == score
  {
  }

  lemma {:induction false} HopAllKeeps(
    t: Task, source: string, depth: nat, u: string, path: seq<string>, rs: seq<Rel>, todo: seq<string>, p: Progress,
    entered: map<string, nat>) returns (entered': map<string, nat>)
    requires LayerInv(t, source, depth, todo, p, entered) && depth <= t.settings.maxDepth
    requires Reached(t, source, depth - 1, u, path)
    requires forall r :: r in rs ==> r in t.store.relations && NearEnd(t.direction, r) == u
    ensures var q := HopAll(t, source, depth, path, rs, p);
            && LayerInv(t, source, depth, todo, q, entered') && Grows(p.visited, entered, q.visited, entered')
            && forall r :: r in rs ==> HopDone(t, source, depth, r, q.visited, entered')
  {
    if rs == [] {
      entered' := entered;
    } else {
      var mid := HopKeeps(t, source, depth, u, path, rs[0], todo, p, entered);
      var m := Hop(t, source, depth, path, rs[0], p);
      var q := HopAll(t, source, depth, path, rs[1..], m);
      assert q == HopAll(t, source, depth, path, rs, p);
      assert rs == [rs[0]] + rs[1..];
      hide *;
      entered' := HopAllKeeps(t, source, depth, u, path, rs[1..], todo, m, mid);
      HopDoneGrows(t, source, depth, rs[0], m.visited, mid, q.visited, entered');
      GrowsChain(p.visited, entered, m.visited, mid, q.visited, entered');
    }
  }

  /** After its hops a node of this layer is settled. */
  lemma NodeSettled(
    t: Task, source: string, depth: nat, todo: seq<string>, q: Progress, entered: map<string, nat>)
    requires LayerInv(t, source, depth, todo, q, entered) && todo != []
    requires forall r :: r in Incident(t, todo[0]) ==> HopDone(t, source, depth, r, q.visited, entered)
    ensures LayerInv(t, source, depth, todo[1..], q, entered)
  {
    forall u | u in entered && (entered[u] < depth - 1 || (entered[u] == depth - 1 && u !in todo[1..]))
      ensures Settled(t, source, u, q.visited, entered)
    {
      if entered[u] == depth - 1 && u in todo {
        assert u == todo[0];
        HopsSettle(t, source, depth, u, q.visited, entered);
      }
      hide RecordsOk, Reached, HopDone, EnteredOk, LayerOk, Settled, Incident;
    }
    hide RecordsOk, Reached, HopDone, EnteredOk, LayerOk, Settled, Incident;
  }

  lemma HopsSettle(
    t: Task, source: string, depth: nat, u: string, visited: map<string, real>, entered: map<string, nat>)
    requires u in entered && entered[u] + 1 == depth
    requires forall r :: r in Incident(t, u) ==> HopDone(t, source, depth, r, visited, entered)
    ensures Settled(t, source, u, visited, entered)
  {
    hide HopDone;
  }

  ghost predicate FrontierOk(t: Task, source: string, hops: nat, frontier: Layer) {
    LayerOk(frontier) && forall v :: v in frontier.entries ==> Reached(t, source, hops, v, frontier.entries[v].path)
  }

  lemma {:induction false} ExpandAllKeeps(
    t: Task, source: string, depth: nat, frontier: Layer, todo: seq<string>, p: Progress, entered: map<string, nat>)
    returns (entered': map<string, nat>)
    requires LayerInv(t, source, depth, todo, p, entered) && depth <= t.settings.maxDepth
    requires FrontierOk(t, source, depth - 1, frontier) && forall id :: id in todo ==> id in frontier.entries
    ensures LayerInv(t, source, depth, [], ExpandAll(t, source, depth, frontier, todo, p), entered')
  {
    if todo == [] {
      entered' := entered;
    } else {
      var u := todo[0];
      var path := frontier.entries[u].path;
      var q := HopAll(t, source, depth, path, Incident(t, u), p);
      var mid := HopAllKeeps(t, source, depth, u, path, Incident(t, u), todo, p, entered);
      NodeSettled(t, source, depth, todo, q, mid);
      hide LayerInv, HopAll, Incident, HopDone, Grows;
      entered' := ExpandAllKeeps(t, source, depth, frontier, todo[1..], q, mid);
    }
  }

  /** Before layer `depth`: the frontier holds every node first entered on the layer above. */
  ghost predicate StartInv(
    t: Task, source: string, depth: nat, frontier: Layer, visited: map<string, real>, impacts: seq<ImpactedNode>,
    entered: map<string, nat>)
  {
    && LayerInv(t, source, depth, frontier.order, Progress(visited, EMPTY_LAYER, impacts), entered)
    && FrontierOk(t, source, depth - 1, frontier)
    && (forall v :: v in entered ==> entered[v] <= depth - 1 && (entered[v] == depth - 1 ==> v in frontier.order))
  }

  /** Every node is settled, or the next layer out of it is never scored above zero. */
  ghost predicate Exhausted(t: Task, source: string, visited: map<string, real>, entered: map<string, nat>) {
    forall u :: u in entered ==>
      || Settled(t, source, u, visited, entered)
      || entered[u] >= t.settings.maxDepth
      || Decay(t.settings, entered[u] + 1) == 0.0
  }

  lemma NextLayer(t: Task, source: string, depth: nat, p: Progress, entered: map<string, nat>)
    requires LayerInv(t, source, depth, [], p, entered)
    ensures StartInv(t, source, depth + 1, p.next, p.visited, p.impacts, entered)
    ensures p.next.order == [] || Decay(t.settings, depth + 1) == 0.0 ==> Exhausted(t, source, p.visited, entered)
  {
    hide RecordsOk, Reached, Settled;
  }

  lemma {:induction false} SearchFromKeeps(
    t: Task, source: string, depth: nat, frontier: Layer, visited: map<string, real>, impacts: seq<ImpactedNode>,
    entered: map<string, nat>) returns (visited': map<string, real>, entered': map<string, nat>, last: nat)
    requires StartInv(t, source, depth, frontier, visited, impacts, entered)
    ensures EnteredOk(t, source, last, visited', entered') && Exhausted(t, source, visited', entered')
    ensures RecordsOk(t, source, visited', SearchFrom(t, source, depth, frontier, visited, impacts))
    decreases t.settings.maxDepth + 1 - depth
  {
    if depth > t.settings.maxDepth || Decay(t.settings, depth) == 0.0 {
      visited', entered', last := visited, entered, depth;
      hide Settled, RecordsOk, Reached;
    } else {
      var start := Progress(visited, EMPTY_LAYER, impacts);
      ExpandAllLayerOk(t, source, depth, frontier, frontier.order, start);
      entered' := ExpandAllKeeps(t, source, depth, frontier, frontier.order, start, entered);
      var p := ExpandAll(t, source, depth, frontier, frontier.order, start);
      NextLayer(t, source, depth, p, entered');
      if p.next.order == [] || Decay(t.settings, depth + 1) == 0.0 {
        visited', last := p.visited, depth;
        hide Settled, RecordsOk, Reached, Exhausted, ExpandAll, EnteredOk;
      } else {
        hide LayerInv, RecordsOk, EnteredOk, Exhausted, StartInv, ExpandAll;
        visited', entered', last := SearchFromKeeps(t, source, depth + 1, p.next, p.visited, p.impacts, entered');
      }
    }
  }

  lemma SearchStart(t: Task, source: string)
    ensures StartInv(t, source, 1, FirstLayer(source), map[source := 1.0], [], map[source := 0])
  {
    assert Leads(t, source, [], 0, source, []);
    assert Reached(t, source, 0, source, []);
  }

  // ----- what the search promises -----

  /** No layer down to this one has a zero decay, which would end the search. */
  ghost predicate Live(c: Settings, depth: nat) {
    forall d: nat :: 1 <= d <= depth ==> Decay(c, d) != 0.0
  }

  /** Deeper layers never count more, from the second to the first with zero decay, as in the default 1.0, 0.6, 0.3. */
  ghost predicate DecayFalls(c: Settings) {
    forall i: nat, j: nat :: 2 <= i <= j <= c.maxDepth && Live(c, j) ==> 0.0 <= Decay(c, j) <= Decay(c, i)
  }

  /** No admissible walk within the depth limit is worth more than the best record of its end. */
  ghost predicate Optimal(t: Task, source: string) {
    forall rs :: rs != [] && |rs| <= t.settings.maxDepth && Admissible(t, source, rs) ==>
      exists i :: i in Search(t, source) && i.nodeId == EndOf(t, source, rs) && i.score >= Worth(t, rs)
  }

  lemma ScaleMonotone(w: real, d: real, e: real)
    requires 0.0 <= e <= d && w * e > 0.0
    ensures w * d >= w * e
  {
    assert w <= 0.0 ==> w * e <= 0.0;
    assert w * (d - e) >= 0.0;
  }

  /** A hop that counts on one layer counts at least as much on an earlier one. */
  lemma EarlierIsBetter(t: Task, r: Rel, early: nat, late: nat)
    requires DecayFalls(t.settings) && t.settings.threshold > 0.0 && early <= late <= t.settings.maxDepth
    requires early >= 2 || early == late
    requires Live(t.settings, late)
    requires HopScore(t, r, late) >= t.settings.threshold
    ensures HopScore(t, r, early) >= HopScore(t, r, late)
    ensures Decay(t.settings, early) != 0.0
  {
    var w := t.settings.weights[Lower(r.relType)];
    var weight := if t.change in w then w[t.change] else 0.0;
    var d, e := Decay(t.settings, early), Decay(t.settings, late);
    if early < late {
      ScaleMonotone(weight, d, e);
    }
    assert d != 0.0;
  }

  /** Every layer an admissible walk comes through has a decay. */
  lemma {:induction false} WalkLive(t: Task, source: string, rs: seq<Rel>)
    requires t.settings.threshold > 0.0 && Admissible(t, source, rs)
    ensures Live(t.settings, |rs|)
  {
    if rs != [] {
      WalkLive(t, source, rs[..|rs| - 1]);
      assert HopScore(t, rs[|rs| - 1], |rs|) > 0.0;
    }
  }

  lemma SettledHop(
    t: Task, source: string, u: string, r: Rel, visited: map<string, real>, entered: map<string, nat>)
    requires u in entered && Settled(t, source, u, visited, entered)
    requires r in t.store.relations && NearEnd(t.direction, r) == u
    ensures HopDone(t, source, entered[u] + 1, r, visited, entered)
  {
    hide HopDone;
  }

  /** No admissible walk beats the recorded best of its end, and its end was entered no later than the walk arrives. */
  lemma {:induction false} WalkBound(
    t: Task, source: string, visited: map<string, real>, entered: map<string, nat>, last: nat, rs: seq<Rel>)
    requires EnteredOk(t, source, last, visited, entered) && Exhausted(t, source, visited, entered)
    requires DecayFalls(t.settings) && t.settings.threshold > 0.0
    requires Admissible(t, source, rs) && |rs| <= t.settings.maxDepth
    ensures var v := EndOf(t, source, rs);
            && v in entered && v in visited && entered[v] <= |rs|
            && (rs != [] ==> v != source && v in t.store.nodes && visited[v] >= Worth(t, rs))
  {
    hide DecayFalls, HopScore, Live, Settled;
    if rs != [] {
      var r, prefix := rs[|rs| - 1], rs[..|rs| - 1];
      WalkBound(t, source, visited, entered, last, prefix);
      var u := EndOf(t, source, prefix);
      WalkLive(t, source, rs);
      EarlierIsBetter(t, r, entered[u] + 1, |rs|);
      SettledHop(t, source, u, r, visited, entered);
    }
  }

  /**
   The pruned search is optimal: every record is an admissible walk of its own length, labels and
   worth, and no admissible walk of at most `maxDepth` hops is worth more than the best record of its end.
   */
  lemma SearchOptimal(t: Task, source: string)
    ensures forall i :: i in Search(t, source) ==> Supported(t, source, i)
    ensures DecayFalls(t.settings) && t.settings.threshold > 0.0 ==> Optimal(t, source)
  {
    SearchStart(t, source);
    var visited, entered, last :=
      SearchFromKeeps(t, source, 1, FirstLayer(source), map[source := 1.0], [], map[source := 0]);
    var found := Search(t, source);
    assert RecordsOk(t, source, visited, found);
    if DecayFalls(t.settings) && t.settings.threshold > 0.0 {
      forall rs | rs != [] && |rs| <= t.settings.maxDepth && Admissible(t, source, rs)
        ensures exists i :: i in found && i.nodeId == EndOf(t, source, rs) && i.score >= Worth(t, rs)
      {
        WalkBound(t, source, visited, entered, last, rs);
      }
    }
  }
}
