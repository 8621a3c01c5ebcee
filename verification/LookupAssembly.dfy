/** Assembling repository findings and capability candidates into the public result. */
module LookupAssembly {
  import opened BusinessEntry
  import opened Collections
  import opened RealizationLookup
  import opened Texts
  import opened Wrappers

  datatype Candidate = Candidate(capabilityId: string, distance: real)

  /** What the candidate constructor accepts. */
  predicate ValidCandidate(c: Candidate) { Nonblank(c.capabilityId) && 0.0 <= c.distance <= 2.0 }

  function ScoreFromDistance(distance: real): (score: real)
    ensures 0.0 <= score <= 1.0
  {
    if 1.0 - distance > 1.0 then 1.0 else if 1.0 - distance < 0.0 then 0.0 else 1.0 - distance
  }

  /** Candidate ids in order of first occurrence, each with its least distance. */
  datatype Distances = Distances(order: seq<string>, best: map<string, real>)

  function AddCandidate(d: Distances, c: Candidate): Distances {
    if c.capabilityId !in d.best then Distances(d.order + [c.capabilityId], d.best[c.capabilityId := c.distance])
    else if c.distance < d.best[c.capabilityId] then d.(best := d.best[c.capabilityId := c.distance])
    else d
  }

  function Collect(candidates: seq<Candidate>): Distances {
    if candidates == [] then Distances([], map[])
    else AddCandidate(Collect(candidates[..|candidates| - 1]), candidates[|candidates| - 1])
  }

  function IdsOf(candidates: seq<Candidate>): (r: seq<string>)
    ensures |r| == |candidates| && forall i :: 0 <= i < |r| ==> r[i] == candidates[i].capabilityId
  {
    seq(|candidates|, i requires 0 <= i < |candidates| => candidates[i].capabilityId)
  }

  /** The evidence lists by candidate, the keys already served, and the reasons, as they grow. */
  datatype Assembly = Assembly(groups: map<string, seq<Evidence>>, seen: set<(string, string)>, reasons: seq<Reason>)

  function Draft(repo: string, raw: RawEntry, distance: real, endpoint: seq<Pair>): Evidence {
    Evidence(repo, raw.capabilityId, raw.capabilityName, raw.capabilityDomain, ScoreFromDistance(distance),
             raw.codeEntityId, raw.entryName, raw.entryCategory, raw.filePath, raw.startLine, raw.endLine, endpoint)
  }

  /** The entry's endpoint, absent where reading its metadata raises. */
  function EndpointOf(parse: string -> Parsed, raw: RawEntry): Option<Endpoint> {
    EndpointFromMetadata(parse, raw.entryCategory, raw.entryMetadata)
  }

  function EntryReasons(endpoint: Endpoint, raw: RawEntry, reasons: seq<Reason>): seq<Reason> {
    var noted := if endpoint.reason.Some? then AppendReason(reasons, endpoint.reason.value) else reasons;
    if raw.filePath.None? then AppendReason(noted, MissingEntryMetadata) else noted
  }

  /** One entry; `InvalidArgument` stands for the evidence constructor's exception. */
  function StepRaw(parse: string -> Parsed, repo: string, d: Distances, raw: RawEntry, a: Assembly)
    : (r: Result<Assembly, Failure>)
    requires a.groups.Keys == d.best.Keys
    ensures r.Ok? ==> r.value.groups.Keys == d.best.Keys
  {
    if raw.capabilityRepoId != repo || raw.codeEntityRepoId != repo then
      Ok(a.(reasons := AppendReason(a.reasons, RepoMismatch)))
    else if raw.capabilityId !in d.best then Ok(a.(reasons := AppendReason(a.reasons, CorruptGraphData)))
    else if (raw.capabilityId, raw.codeEntityId) in a.seen then Ok(a)
    else
      var endpoint := EndpointOf(parse, raw);
      if endpoint.None? then Err(ParserRaised)
      else
        var evidence := MakeEvidence(Draft(repo, raw, d.best[raw.capabilityId], endpoint.value.pairs));
        if evidence.None? then Err(InvalidArgument)
        else Ok(Assembly(a.groups[raw.capabilityId := a.groups[raw.capabilityId] + [evidence.value]],
                         a.seen + {(raw.capabilityId, raw.codeEntityId)}, EntryReasons(endpoint.value, raw, a.reasons)))
  }

  function StepEntries(parse: string -> Parsed, repo: string, d: Distances, entries: seq<RawEntry>, a: Assembly)
    : (r: Result<Assembly, Failure>)
    requires a.groups.Keys == d.best.Keys
    ensures r.Ok? ==> r.value.groups.Keys == d.best.Keys
    decreases |entries|
  {
    if entries == [] then Ok(a)
    else
      var next := StepRaw(parse, repo, d, entries[0], a);
      if next.Err? then next else StepEntries(parse, repo, d, entries[1..], next.value)
  }

  function Flatten(order: seq<string>, groups: map<string, seq<Evidence>>): seq<Evidence>
    requires forall id :: id in order ==> id in groups
  {
    if order == [] then [] else groups[order[0]] + Flatten(order[1..], groups)
  }

  function StatusFor(evidences: seq<Evidence>, reasons: seq<Reason>): Status {
    if evidences != [] then (if reasons == [] then Found else Degraded)
    else if OnlyMisses(reasons) then NotFound else Degraded
  }

  /** The result constructor. */
  function MakeResult(status: Status, evidences: seq<Evidence>, reasons: seq<Reason>): Result<LookupResult, Failure> {
    var r := LookupResult(status, evidences, reasons);
    if ValidResult(r) then Ok(r) else Err(InvalidArgument)
  }

  function StableReasons(reasons: seq<Reason>): seq<Reason> {
    if reasons == [] then [] else AppendReason(StableReasons(reasons[..|reasons| - 1]), reasons[|reasons| - 1])
  }

  function Finish(d: Distances, a: Assembly): Result<LookupResult, Failure>
    requires forall id :: id in d.order ==> id in a.groups
  {
    var evidences := Flatten(d.order, a.groups);
    var reasons := if evidences == [] && a.reasons == []
                   then [if d.order == [] then NoCapabilityMatch else NoRealization] else a.reasons;
    MakeResult(StatusFor(evidences, reasons), evidences, reasons)
  }

  lemma {:induction false} CollectKeys(candidates: seq<Candidate>)
    ensures var d := Collect(candidates); Distinct(d.order) && forall id :: id in d.order <==> id in d.best
  {
    if candidates != [] {
      CollectKeys(candidates[..|candidates| - 1]);
    }
  }

  /** Before the first entry. */
  function StartOf(d: Distances, f: Finding): Assembly {
    Assembly(map id | id in d.best :: [], {}, StableReasons(f.reasons))
  }

  function Assemble(parse: string -> Parsed, repo: string, candidates: seq<Candidate>, lookup: Finding)
    : Result<LookupResult, Failure>
  {
    if !Nonblank(repo) then Err(InvalidArgument)
    else if lookup.entries == [] && lookup.reasons == [BackendUnavailable] then
      MakeResult(Unavailable, [], lookup.reasons)
    else if BackendUnavailable in lookup.reasons then Err(InvalidArgument)
    else
      var d := Collect(candidates);
      var a := StepEntries(parse, repo, d, lookup.entries, StartOf(d, lookup));
      CollectKeys(candidates);
      if a.Err? then Err(a.error) else Finish(d, a.value)
  }

  method CandidateDistances(candidates: seq<Candidate>) returns (d: Distances)
    ensures d == Collect(candidates)
  {
    var order: seq<string>, best: map<string, real> := [], map[];
    for i := 0 to |candidates|
      invariant Distances(order, best) == Collect(candidates[..i])
    {
      assert candidates[..i + 1][..i] == candidates[..i];
      var c := candidates[i];
      if c.capabilityId !in best || c.distance < best[c.capabilityId] {
        if c.capabilityId !in best {
          order := order + [c.capabilityId];
        }
        best := best[c.capabilityId := c.distance];
      }
    }
    assert candidates[..|candidates|] == candidates;
    d := Distances(order, best);
  }

  method AssembleBusinessEntryLookup(
    parse: string -> Parsed, repo: string, candidates: seq<Candidate>, lookup: Finding)
    returns (r: Result<LookupResult, Failure>)
    ensures r == Assemble(parse, repo, candidates, lookup)
  {
    if !Nonblank(repo) {
      return Err(InvalidArgument);
    }
    if lookup.entries == [] && lookup.reasons == [BackendUnavailable] {
      return MakeResult(Unavailable, [], lookup.reasons);
    }
    if BackendUnavailable in lookup.reasons {
      return Err(InvalidArgument);
    }
    var d := CandidateDistances(candidates);
    CollectKeys(candidates);
    var a := Assembly(map id | id in d.best :: [], {}, StableReasons(lookup.reasons));
    ghost var start := a;
    assert start == StartOf(d, lookup);
    for i := 0 to |lookup.entries|
      invariant a.groups.Keys == d.best.Keys
      invariant StepEntries(parse, repo, d, lookup.entries[i..], a)
             == StepEntries(parse, repo, d, lookup.entries, start)
    {
      assert lookup.entries[i..][0] == lookup.entries[i] && lookup.entries[i..][1..] == lookup.entries[i + 1..];
      var next := StepRaw(parse, repo, d, lookup.entries[i], a);
      if next.Err? {
        return Err(next.error);
      }
      a := next.value;
    }
    r := Finish(d, a);
  }

  /** The lookup as a whole: the repository pass over the candidates' ids, then the assembly. */
  function Find(b: Backend, repo: string, candidates: seq<Candidate>, generation: Option<string>)
    : Result<LookupResult, Failure>
  {
    var lookup := Lookup(b, repo, IdsOf(candidates), generation);
    if lookup.Err? then Err(lookup.error) else Assemble(b.parse, repo, candidates, lookup.value)
  }

  // ----- candidates -----

  ghost predicate Has(candidates: seq<Candidate>, id: string) { exists c :: c in candidates && c.capabilityId == id }

  lemma HasSnoc(front: seq<Candidate>, last: Candidate)
    ensures forall id :: Has(front + [last], id) <==> Has(front, id) || id == last.capabilityId
  {
    var all := front + [last];
    assert last in all && forall c :: c in all <==> c in front || c == last;
  }

  /** The order is that of the first occurrences. */
  lemma {:induction false} CollectOrder(candidates: seq<Candidate>)
    ensures var d := Collect(candidates);
            d.order == Dedup(IdsOf(candidates)) && forall id :: id in d.order <==> id in d.best
  {
    if candidates != [] {
      var front := candidates[..|candidates| - 1];
      CollectOrder(front);
      assert IdsOf(candidates)[..|candidates| - 1] == IdsOf(front);
    }
  }

  ghost predicate HeldExactly(best: map<string, real>, candidates: seq<Candidate>) {
    && (forall id :: id in best <==> Has(candidates, id))
    && (forall c :: c in candidates ==> c.capabilityId in best && best[c.capabilityId] <= c.distance)
    && (forall id :: id in best ==> Candidate(id, best[id]) in candidates)
  }

  lemma AddExact(d: Distances, front: seq<Candidate>, last: Candidate)
    requires HeldExactly(d.best, front)
    ensures HeldExactly(AddCandidate(d, last).best, front + [last])
  {
    HasSnoc(front, last);
    hide Has;
    var all := front + [last];
    assert last == Candidate(last.capabilityId, last.distance);
    assert last in all && forall c :: c in all <==> c in front || c == last;
  }

  /** Each id is held with its least distance. */
  lemma {:induction false} CollectExact(candidates: seq<Candidate>)
    ensures HeldExactly(Collect(candidates).best, candidates)
  {
    if candidates != [] {
      var front, last := candidates[..|candidates| - 1], candidates[|candidates| - 1];
      assert candidates == front + [last];
      assert Collect(candidates) == AddCandidate(Collect(front), last);
      hide *;
      CollectExact(front);
      AddExact(Collect(front), front, last);
    }
  }

  // ----- assembly of a repository finding -----

  /** The entry has no metadata text to read, or reading it does not raise. */
  predicate Parses(parse: string -> Parsed, raw: RawEntry): (r: bool)
    ensures r <==> EndpointOf(parse, raw).Some?
  {
    raw.entryMetadata.None? || !Nonblank(raw.entryMetadata.value) || !parse(raw.entryMetadata.value).ParserRaises?
  }

  /** The entry's metadata gives an endpoint and it has a path. */
  predicate Complete(parse: string -> Parsed, raw: RawEntry) {
    Parses(parse, raw) && EndpointOf(parse, raw).value.reason.None? && raw.filePath.Some?
  }

  /** The evidence made of an entry. */
  function EvidenceOf(parse: string -> Parsed, repo: string, d: Distances, raw: RawEntry): Option<Evidence>
    requires raw.capabilityId in d.best
  {
    var endpoint := EndpointOf(parse, raw);
    if endpoint.None? then None else MakeEvidence(Draft(repo, raw, d.best[raw.capabilityId], endpoint.value.pairs))
  }

  /** An entry fit for assembly whose metadata is read never makes the evidence constructor raise. */
  lemma EvidenceAccepted(parse: string -> Parsed, repo: string, d: Distances, raw: RawEntry)
    requires Nonblank(repo) && raw.capabilityId in d.best && EntryFits(repo, raw.capabilityId, raw)
    requires Parses(parse, raw)
    ensures var e := EvidenceOf(parse, repo, d, raw);
            && e.Some? && e.value.capabilityId == raw.capabilityId && e.value.codeEntityId == raw.codeEntityId
            && e.value.repoId == repo && e.value.capabilityScore == ScoreFromDistance(d.best[raw.capabilityId])
  {
    EndpointAccepted(parse, raw.entryCategory, raw.entryMetadata);
    hide Nonblank, NormalizeEndpoint, EndpointFromMetadata;
  }

  lemma EntryReasonsGrow(parse: string -> Parsed, raw: RawEntry, reasons: seq<Reason>)
    requires BackendUnavailable !in reasons && Parses(parse, raw)
    ensures var r := EntryReasons(EndpointOf(parse, raw).value, raw, reasons);
            BackendUnavailable !in r && (r == [] <==> reasons == [] && Complete(parse, raw))
  {
    EndpointAccepted(parse, raw.entryCategory, raw.entryMetadata);
    hide NormalizeEndpoint, EndpointFromMetadata;
  }

  /** How far the assembly of some entries has come. */
  ghost predicate Assembled(
    parse: string -> Parsed, repo: string, d: Distances, done: seq<RawEntry>, noted: bool, a: Assembly)
  {
    && a.groups.Keys == d.best.Keys && BackendUnavailable !in a.reasons
    && (forall e :: e in done ==> e.capabilityId in d.best && EvidenceOf(parse, repo, d, e).Some?
                                  && a.groups[e.capabilityId] == [EvidenceOf(parse, repo, d, e).value])
    && (forall id :: id in d.best && (forall e :: e in done ==> e.capabilityId != id) ==> a.groups[id] == [])
    && (forall k :: k in a.seen ==> exists e :: e in done && e.capabilityId == k.0)
    && (a.reasons == [] <==> !noted && forall e :: e in done ==> Complete(parse, e))
  }

  lemma AssembleStep(
    parse: string -> Parsed, repo: string, d: Distances, done: seq<RawEntry>, noted: bool, raw: RawEntry, a: Assembly)
    requires Assembled(parse, repo, d, done, noted, a) && Nonblank(repo) && raw.capabilityId in d.best
    requires EntryFits(repo, raw.capabilityId, raw) && forall e :: e in done ==> e.capabilityId != raw.capabilityId
    ensures var r := StepRaw(parse, repo, d, raw, a);
            if Parses(parse, raw) then r.Ok? && Assembled(parse, repo, d, done + [raw], noted, r.value)
            else r == Err(ParserRaised)
  {
    assert raw.capabilityRepoId == repo && raw.codeEntityRepoId == repo;
    assert (raw.capabilityId, raw.codeEntityId) !in a.seen;
    assert a.groups[raw.capabilityId] == [];
    if Parses(parse, raw) {
      EvidenceAccepted(parse, repo, d, raw);
      EntryReasonsGrow(parse, raw, a.reasons);
      var e := EvidenceOf(parse, repo, d, raw).value;
      assert [] + [e] == [e];
      var r := Assembly(a.groups[raw.capabilityId := [e]], a.seen + {(raw.capabilityId, raw.codeEntityId)},
                        EntryReasons(EndpointOf(parse, raw).value, raw, a.reasons));
      StepTaken(parse, repo, d, raw, a, r);
      hide EvidenceOf, EntryReasons, Complete, EntryFits, Nonblank, StepRaw, Parses, EndpointOf;
      AssembledGrows(parse, repo, d, done, noted, raw, a, r);
    }
    hide EndpointOf, Assembled, Nonblank, EntryFits;
  }

  lemma StepTaken(parse: string -> Parsed, repo: string, d: Distances, raw: RawEntry, a: Assembly, r: Assembly)
    requires a.groups.Keys == d.best.Keys && raw.capabilityRepoId == repo && raw.codeEntityRepoId == repo
    requires raw.capabilityId in d.best && (raw.capabilityId, raw.codeEntityId) !in a.seen
    requires Parses(parse, raw) && EvidenceOf(parse, repo, d, raw).Some?
    requires var e := EvidenceOf(parse, repo, d, raw).value;
             r == Assembly(a.groups[raw.capabilityId := a.groups[raw.capabilityId] + [e]],
                           a.seen + {(raw.capabilityId, raw.codeEntityId)},
                           EntryReasons(EndpointOf(parse, raw).value, raw, a.reasons))
    ensures StepRaw(parse, repo, d, raw, a) == Ok(r)
  {
    hide MakeEvidence, Draft, EndpointOf, EntryReasons;
  }

  lemma AssembledGrows(
    parse: string -> Parsed, repo: string, d: Distances, done: seq<RawEntry>, noted: bool, raw: RawEntry,
    a: Assembly, r: Assembly)
    requires Assembled(parse, repo, d, done, noted, a)
    requires raw.capabilityId in d.best && EvidenceOf(parse, repo, d, raw).Some?
    requires forall e :: e in done ==> e.capabilityId != raw.capabilityId
    requires r.groups == a.groups[raw.capabilityId := [EvidenceOf(parse, repo, d, raw).value]]
    requires r.seen == a.seen + {(raw.capabilityId, raw.codeEntityId)} && BackendUnavailable !in r.reasons
    requires r.reasons == [] <==> a.reasons == [] && Complete(parse, raw)
    ensures Assembled(parse, repo, d, done + [raw], noted, r)
  {
    hide EvidenceOf, Complete;
    var all := done + [raw];
    assert raw in all && forall e :: e in all <==> e in done || e == raw;
    forall id | id in d.best && (forall e :: e in all ==> e.capabilityId != id) ensures r.groups[id] == [] {
      assert id != raw.capabilityId;
    }
    forall k | k in r.seen ensures exists e :: e in all && e.capabilityId == k.0 {
      if k in a.seen {
        var e :| e in done && e.capabilityId == k.0;
        assert e in all;
      }
    }
  }

  /** Reading the metadata of these entries does not raise. */
  predicate AllParse(parse: string -> Parsed, entries: seq<RawEntry>) { forall e :: e in entries ==> Parses(parse, e) }

  /** The entries are fit for assembly with these candidates. */
  ghost predicate AllFit(repo: string, d: Distances, entries: seq<RawEntry>) {
    forall e :: e in entries ==> e.capabilityId in d.best && EntryFits(repo, e.capabilityId, e)
  }

  lemma {:induction false} AssembleAll(
    parse: string -> Parsed, repo: string, d: Distances, done: seq<RawEntry>, noted: bool, entries: seq<RawEntry>,
    a: Assembly)
    requires Assembled(parse, repo, d, done, noted, a) && Nonblank(repo) && a.groups.Keys == d.best.Keys
    requires AllFit(repo, d, entries) && OnePerCapability(done + entries)
    ensures var r := StepEntries(parse, repo, d, entries, a);
            if AllParse(parse, entries) then r.Ok? && Assembled(parse, repo, d, done + entries, noted, r.value)
            else r == Err(ParserRaised)
    decreases |entries|
  {
    hide *;
    StepEntriesCons(parse, repo, d, entries, a);
    AllCons(parse, repo, d, entries);
    if entries == [] {
      assert done + entries == done;
    } else {
      FreshCapability(done, entries);
      AssembleStep(parse, repo, d, done, noted, entries[0], a);
      assert done + entries == (done + [entries[0]]) + entries[1..];
      if Parses(parse, entries[0]) {
        var next := StepRaw(parse, repo, d, entries[0], a).value;
        AssembleAll(parse, repo, d, done + [entries[0]], noted, entries[1..], next);
      }
    }
  }

  lemma AllCons(parse: string -> Parsed, repo: string, d: Distances, entries: seq<RawEntry>)
    ensures AllParse(parse, entries) <==> entries == [] || (Parses(parse, entries[0]) && AllParse(parse, entries[1..]))
    ensures AllFit(repo, d, entries) && entries != [] ==>
              && entries[0].capabilityId in d.best && EntryFits(repo, entries[0].capabilityId, entries[0])
              && AllFit(repo, d, entries[1..])
  {
    hide Parses, EntryFits;
    if entries != [] {
      assert entries == [entries[0]] + entries[1..];
    }
  }

  lemma StepEntriesCons(parse: string -> Parsed, repo: string, d: Distances, entries: seq<RawEntry>, a: Assembly)
    requires a.groups.Keys == d.best.Keys
    ensures if entries == [] then StepEntries(parse, repo, d, entries, a) == Ok(a)
            else var next := StepRaw(parse, repo, d, entries[0], a);
                 if next.Err? then StepEntries(parse, repo, d, entries, a) == next
                 else && next.value.groups.Keys == d.best.Keys
                      && StepEntries(parse, repo, d, entries, a)
                         == StepEntries(parse, repo, d, entries[1..], next.value)
  {
    hide StepRaw;
  }

  lemma FreshCapability(done: seq<RawEntry>, entries: seq<RawEntry>)
    requires entries != []
    requires OnePerCapability(done + entries)
    ensures forall e :: e in done ==> e.capabilityId != entries[0].capabilityId
  {
    assert (done + entries)[|done|] == entries[0];
    forall e | e in done ensures e.capabilityId != entries[0].capabilityId {
      var i :| 0 <= i < |done| && done[i] == e;
      assert (done + entries)[i] == e;
    }
  }

  lemma {:induction false} StableEmpty(reasons: seq<Reason>)
    ensures StableReasons(reasons) == [] <==> reasons == []
    ensures forall r :: r in StableReasons(reasons) <==> r in reasons
  {
    if reasons != [] {
      var front, last := reasons[..|reasons| - 1], reasons[|reasons| - 1];
      StableEmpty(front);
      assert reasons == front + [last];
    }
  }

  /** Where each id has at most one evidence, the flattened list follows the order of the ids. */
  ghost predicate SingleGroups(order: seq<string>, groups: map<string, seq<Evidence>>) {
    forall id :: id in order ==>
      id in groups && |groups[id]| <= 1 && forall e :: e in groups[id] ==> e.capabilityId == id
  }

  lemma {:induction false} FlattenMember(order: seq<string>, groups: map<string, seq<Evidence>>, e: Evidence)
    requires SingleGroups(order, groups)
    ensures e in Flatten(order, groups) <==> e.capabilityId in order && e in groups[e.capabilityId]
  {
    if order != [] {
      FlattenMember(order[1..], groups, e);
      assert order == [order[0]] + order[1..];
    }
  }

  /** The capability of one evidence stands before that of another. */
  ghost predicate Precedes(order: seq<string>, before: string, after: string) {
    exists k, l :: 0 <= k < l < |order| && order[k] == before && order[l] == after
  }

  /** The evidences follow the ids, each id at most once where the ids are distinct. */
  ghost predicate InOrder(order: seq<string>, evidences: seq<Evidence>) {
    forall i, j :: 0 <= i < j < |evidences| ==> Precedes(order, evidences[i].capabilityId, evidences[j].capabilityId)
  }

  /** Evidences of one id before evidences of later ids keep the order. */
  lemma InOrderCons(id: string, rest: seq<string>, head: seq<Evidence>, tail: seq<Evidence>)
    requires |head| <= 1 && (forall e :: e in head ==> e.capabilityId == id)
    requires InOrder(rest, tail) && forall e :: e in tail ==> e.capabilityId in rest
    ensures InOrder([id] + rest, head + tail)
  {
    var order, r := [id] + rest, head + tail;
    forall i, j | 0 <= i < j < |r| ensures Precedes(order, r[i].capabilityId, r[j].capabilityId) {
      assert r[j] == tail[j - |head|] && r[j] in tail;
      if i < |head| {
        assert r[i] in head;
        var l :| 0 <= l < |rest| && rest[l] == r[j].capabilityId;
        assert order[0] == id && order[l + 1] == r[j].capabilityId;
      } else {
        assert r[i] == tail[i - |head|];
        assert Precedes(rest, tail[i - |head|].capabilityId, tail[j - |head|].capabilityId);
        var k, l :| 0 <= k < l < |rest| && rest[k] == r[i].capabilityId && rest[l] == r[j].capabilityId;
        assert order[k + 1] == r[i].capabilityId && order[l + 1] == r[j].capabilityId;
      }
    }
  }

  lemma {:induction false} FlattenOrder(order: seq<string>, groups: map<string, seq<Evidence>>)
    requires SingleGroups(order, groups)
    ensures InOrder(order, Flatten(order, groups))
    ensures forall e :: e in Flatten(order, groups) <==> e.capabilityId in order && e in groups[e.capabilityId]
  {
    if order != [] {
      var rest := order[1..];
      assert order == [order[0]] + rest;
      FlattenOrder(rest, groups);
      assert Flatten(order, groups) == groups[order[0]] + Flatten(rest, groups);
      InOrderCons(order[0], rest, groups[order[0]], Flatten(rest, groups));
      assert InOrder([order[0]] + rest, Flatten(order, groups));
    }
    forall e ensures e in Flatten(order, groups) <==> e.capabilityId in order && e in groups[e.capabilityId] {
      FlattenMember(order, groups, e);
    }
  }

  // ----- the lookup as a whole -----

  /** What the candidates and the caller provide. */
  ghost predicate Ready(repo: string, candidates: seq<Candidate>, generation: Option<string>) {
    && Nonblank(repo) && (forall c :: c in candidates ==> ValidCandidate(c))
    && (generation.Some? ==> Nonblank(generation.value))
  }

  /** The candidate's stored facts resolve, with complete metadata. */
  ghost predicate Clean(b: Backend, repo: string, generation: Option<string>, id: string) {
    var g := Normalized(generation);
    Resolves(b, repo, g, id) && Complete(b.parse, Yield(b, repo, g, id).value)
  }

  /** Reading the metadata of the entry that the candidate yields does not raise. */
  predicate MetadataParses(b: Backend, repo: string, g: Option<string>, id: string) {
    var e := Yield(b, repo, g, id);
    e.Some? ==> Parses(b.parse, e.value)
  }

  /** Nothing that is read for the candidate raises. */
  predicate Answered(b: Backend, repo: string, generation: Option<string>, id: string) {
    var g := Normalized(generation);
    ReadsAnswer(b, repo, g, id) && LinesConvert(b, repo, g, id) && MetadataParses(b, repo, g, id)
  }

  lemma ReadyArguments(repo: string, candidates: seq<Candidate>, generation: Option<string>)
    requires Ready(repo, candidates, generation)
    ensures Nonblank(repo) && ArgumentsOk(repo, IdsOf(candidates), generation)
  {
    hide Nonblank;
    forall id | id in IdsOf(candidates) ensures Nonblank(id) {
      var i :| 0 <= i < |candidates| && candidates[i].capabilityId == id;
      assert candidates[i] in candidates;
    }
  }

  /** The distances and the gathered finding of a lookup, with the state its assembly ends in. */
  ghost predicate State(
    b: Backend, repo: string, candidates: seq<Candidate>, generation: Option<string>, f: Finding, a: Assembly)
  {
    var d := Collect(candidates);
    && Nonblank(repo) && Keyed(d) && Gathered(b, repo, Normalized(generation), d.order, f)
    && AllFit(repo, d, f.entries) && Assembled(b.parse, repo, d, f.entries, f.reasons != [], a)
  }

  /** The order holds just the ids with a distance. */
  ghost predicate Keyed(d: Distances) { forall id :: id in d.order <==> id in d.best }

  lemma GatheredFits(b: Backend, repo: string, g: Option<string>, d: Distances, f: Finding)
    requires Gathered(b, repo, g, d.order, f) && Keyed(d) && Distinct(d.order)
    ensures AllFit(repo, d, f.entries) && OnePerCapability(f.entries) && BackendUnavailable !in f.reasons
  {
    EntriesFit(b, repo, g, d.order);
    hide EntryFits, Resolves;
  }

  lemma StartAssembled(parse: string -> Parsed, repo: string, d: Distances, f: Finding)
    requires BackendUnavailable !in f.reasons
    ensures StartOf(d, f).groups.Keys == d.best.Keys
    ensures Assembled(parse, repo, d, [], f.reasons != [], StartOf(d, f))
  {
    StableEmpty(f.reasons);
  }

  lemma AssembleIs(parse: string -> Parsed, repo: string, candidates: seq<Candidate>, f: Finding)
    requires Nonblank(repo) && BackendUnavailable !in f.reasons
    requires StartOf(Collect(candidates), f).groups.Keys == Collect(candidates).best.Keys && Keyed(Collect(candidates))
    ensures var d := Collect(candidates);
            var a := StepEntries(parse, repo, d, f.entries, StartOf(d, f));
            Assemble(parse, repo, candidates, f) == if a.Err? then Err(a.error) else Finish(d, a.value)
  {
    hide StepEntries, Collect, Finish, StableReasons;
    assert f.reasons != [BackendUnavailable];
  }

  /** Assembling a gathered finding raises exactly when reading some entry's metadata does. */
  lemma FindingAssembled(
    b: Backend, repo: string, candidates: seq<Candidate>, generation: Option<string>, f: Finding) returns (a: Assembly)
    requires Nonblank(repo) && Gathered(b, repo, Normalized(generation), Collect(candidates).order, f)
    ensures Keyed(Collect(candidates))
    ensures if AllParse(b.parse, f.entries)
            then State(b, repo, candidates, generation, f, a) && a.groups.Keys == Collect(candidates).best.Keys
                 && Assemble(b.parse, repo, candidates, f) == Finish(Collect(candidates), a)
            else Assemble(b.parse, repo, candidates, f) == Err(ParserRaised)
  {
    CollectKeys(candidates);
    var d := Collect(candidates);
    var start := StartOf(d, f);
    assert Keyed(d);
    hide *;
    GatheredFits(b, repo, Normalized(generation), d, f);
    StartAssembled(b.parse, repo, d, f);
    assert [] + f.entries == f.entries;
    AssembleAll(b.parse, repo, d, [], f.reasons != [], f.entries, start);
    AssembleIs(b.parse, repo, candidates, f);
    var r := StepEntries(b.parse, repo, d, f.entries, start);
    a := if r.Ok? then r.value else start;
    if r.Ok? {
      StateIs(b, repo, candidates, generation, f, a);
    }
  }

  lemma StateIs(
    b: Backend, repo: string, candidates: seq<Candidate>, generation: Option<string>, f: Finding, a: Assembly)
    requires var d := Collect(candidates);
             && Nonblank(repo) && Keyed(d) && Gathered(b, repo, Normalized(generation), d.order, f)
             && AllFit(repo, d, f.entries) && Assembled(b.parse, repo, d, f.entries, f.reasons != [], a)
    ensures State(b, repo, candidates, generation, f, a) && a.groups.Keys == Collect(candidates).best.Keys
  {
    hide Collect, Nonblank, Gathered, AllFit, Keyed, EvidenceOf, Complete;
  }

  lemma FindIs(b: Backend, repo: string, candidates: seq<Candidate>, generation: Option<string>)
    ensures var lookup := Lookup(b, repo, IdsOf(candidates), generation);
            Find(b, repo, candidates, generation)
            == if lookup.Err? then Err(lookup.error) else Assemble(b.parse, repo, candidates, lookup.value)
  {
    hide Lookup, Assemble;
  }

  /** How a lookup ends: unread, unparsed, or in its last step. */
  lemma FindCases(b: Backend, repo: string, candidates: seq<Candidate>, generation: Option<string>)
    returns (f: Finding, a: Assembly)
    requires Ready(repo, candidates, generation)
    ensures var ids, g := IdsOf(candidates), Normalized(generation);
            var r := Find(b, repo, candidates, generation);
            if !AllRead(b, repo, g, ids) then r.Err? && FailsAs(b, repo, g, ids, r.error)
            else if !AllParse(b.parse, EntriesOf(b, repo, g, Collect(candidates).order)) then r == Err(ParserRaised)
            else && State(b, repo, candidates, generation, f, a) && a.groups.Keys == Collect(candidates).best.Keys
                 && Keyed(Collect(candidates)) && r == Finish(Collect(candidates), a)
  {
    hide *;
    var ids, g := IdsOf(candidates), Normalized(generation);
    ReadyArguments(repo, candidates, generation);
    LookupGathers(b, repo, ids, generation);
    FindIs(b, repo, candidates, generation);
    OrderIs(candidates);
    f, a := Finding([], []), Assembly(map[], {}, []);
    if AllRead(b, repo, g, ids) {
      f := Lookup(b, repo, ids, generation).value;
      GatheredEntries(b, repo, g, Collect(candidates).order, f);
      a := FindingAssembled(b, repo, candidates, generation, f);
    }
  }

  lemma OrderIs(candidates: seq<Candidate>)
    ensures Collect(candidates).order == Dedup(IdsOf(candidates))
  {
    CollectOrder(candidates);
  }

  lemma GatheredEntries(b: Backend, repo: string, g: Option<string>, ids: seq<string>, f: Finding)
    requires Gathered(b, repo, g, ids, f)
    ensures f.entries == EntriesOf(b, repo, g, ids)
  {
    hide EntriesOf, Resolves;
  }

  // ----- the last step -----

  /** The last step meets the result invariants, and is FOUND exactly with evidence and without reasons. */
  lemma FinishValid(d: Distances, a: Assembly)
    requires (forall id :: id in d.order ==> id in a.groups) && BackendUnavailable !in a.reasons
    ensures var r := Finish(d, a);
            && r.Ok? && ValidResult(r.value) && r.value.evidences == Flatten(d.order, a.groups)
            && (r.value.status.Found? <==> Flatten(d.order, a.groups) != [] && a.reasons == [])
            && !r.value.status.Unavailable?
  {
    hide Flatten;
  }

  ghost predicate AllComplete(parse: string -> Parsed, entries: seq<RawEntry>) {
    forall e :: e in entries ==> Complete(parse, e)
  }

  lemma AssembledMeans(parse: string -> Parsed, repo: string, d: Distances, f: Finding, a: Assembly)
    requires Assembled(parse, repo, d, f.entries, f.reasons != [], a) && Keyed(d)
    ensures (forall id :: id in d.order ==> id in a.groups) && BackendUnavailable !in a.reasons
    ensures a.reasons == [] <==> f.reasons == [] && AllComplete(parse, f.entries)
  {
    hide EvidenceOf, Complete;
  }

  /** What a state says about its parts. */
  lemma StateMeans(
    b: Backend, repo: string, candidates: seq<Candidate>, generation: Option<string>, f: Finding, a: Assembly)
    requires State(b, repo, candidates, generation, f, a)
    ensures var d := Collect(candidates);
            && Nonblank(repo) && Keyed(d) && Gathered(b, repo, Normalized(generation), d.order, f)
            && AllFit(repo, d, f.entries) && Assembled(b.parse, repo, d, f.entries, f.reasons != [], a)
            && (forall id :: id in d.order ==> id in a.groups) && BackendUnavailable !in a.reasons
            && (a.reasons == [] <==> f.reasons == [] && AllComplete(b.parse, f.entries))
  {
    AssembledMeans(b.parse, repo, Collect(candidates), f, a);
    hide Collect, Nonblank, Keyed, Gathered, AllFit, Assembled, AllComplete;
  }

  /**
   With good arguments a lookup gives a result, and one that meets the result invariants, exactly when
   every read made for a candidate is answered, no code entity reached in this repository and generation
   has a line text over the digit limit, and no metadata reached makes its reader raise. Otherwise it
   fails for one of these three.
   */
  lemma FindAnswersExactly(b: Backend, repo: string, candidates: seq<Candidate>, generation: Option<string>)
    requires Ready(repo, candidates, generation)
    ensures var r, g := Find(b, repo, candidates, generation), Normalized(generation);
            && (r.Ok? <==> forall c :: c in candidates ==> Answered(b, repo, generation, c.capabilityId))
            && (r.Ok? ==> ValidResult(r.value) && !r.value.status.Unavailable?)
            && (r == Err(BackendDown) ==> exists c :: c in candidates && !ReadsAnswer(b, repo, g, c.capabilityId))
            && (r == Err(LineTooLong) ==> exists c :: c in candidates && !LinesConvert(b, repo, g, c.capabilityId))
            && (r == Err(ParserRaised) <==>
                  && (forall c :: c in candidates ==>
                        ReadsAnswer(b, repo, g, c.capabilityId) && LinesConvert(b, repo, g, c.capabilityId))
                  && exists c :: c in candidates && !MetadataParses(b, repo, g, c.capabilityId))
            && (r.Err? ==> r.error == BackendDown || r.error == LineTooLong || r.error == ParserRaised)
  {
    hide *;
    var f, a := FindCases(b, repo, candidates, generation);
    AnsweredMeans(b, repo, candidates, generation);
    var ids, g := IdsOf(candidates), Normalized(generation);
    if !AllRead(b, repo, g, ids) {
      SomeFails(b, repo, g, candidates, Find(b, repo, candidates, generation).error);
    } else if AllParse(b.parse, EntriesOf(b, repo, g, Collect(candidates).order)) {
      StateMeans(b, repo, candidates, generation, f, a);
      FinishValid(Collect(candidates), a);
    }
  }

  lemma SomeFails(b: Backend, repo: string, g: Option<string>, candidates: seq<Candidate>, failure: Failure)
    requires FailsAs(b, repo, g, IdsOf(candidates), failure)
    ensures failure == BackendDown || failure == LineTooLong
    ensures failure == BackendDown ==> exists c :: c in candidates && !ReadsAnswer(b, repo, g, c.capabilityId)
    ensures failure == LineTooLong ==> exists c :: c in candidates && !LinesConvert(b, repo, g, c.capabilityId)
  {
    hide ReadsAnswer, LinesConvert;
    var ids := IdsOf(candidates);
    if failure == BackendDown {
      var id :| id in ids && !ReadsAnswer(b, repo, g, id);
      var i :| 0 <= i < |ids| && ids[i] == id;
      assert candidates[i] in candidates;
    } else {
      var id :| id in ids && !LinesConvert(b, repo, g, id);
      var i :| 0 <= i < |ids| && ids[i] == id;
      assert candidates[i] in candidates;
    }
  }

  /** The condition candidate by candidate and as the two passes see it. */
  lemma AnsweredMeans(b: Backend, repo: string, candidates: seq<Candidate>, generation: Option<string>)
    ensures var ids, g := IdsOf(candidates), Normalized(generation);
            var entries := EntriesOf(b, repo, g, Collect(candidates).order);
            && ((forall c :: c in candidates ==> Answered(b, repo, generation, c.capabilityId))
                <==> AllRead(b, repo, g, ids) && AllParse(b.parse, entries))
            && (!AllParse(b.parse, entries) <==>
                  exists c :: c in candidates && !MetadataParses(b, repo, g, c.capabilityId))
            && (AllRead(b, repo, g, ids)
                <==> forall c :: c in candidates ==>
                       ReadsAnswer(b, repo, g, c.capabilityId) && LinesConvert(b, repo, g, c.capabilityId))
  {
    var ids, g := IdsOf(candidates), Normalized(generation);
    var order := Collect(candidates).order;
    OrderIs(candidates);
    EntriesFit(b, repo, g, order);
    hide ReadsAnswer, LinesConvert, Parses, Yield, EntryFits, Collect, Dedup, Normalized;
    forall i | 0 <= i < |ids| ensures ids[i] in order && candidates[i] in candidates {
      assert ids[i] in ids;
    }
    forall c | c in candidates ensures c.capabilityId in ids && c.capabilityId in order {
      var i :| 0 <= i < |candidates| && candidates[i] == c;
      assert ids[i] == c.capabilityId;
    }
    forall id | id in order ensures exists c :: c in candidates && c.capabilityId == id {
      assert id in ids;
      var i :| 0 <= i < |ids| && ids[i] == id;
      assert candidates[i].capabilityId == id;
    }
    var entries := EntriesOf(b, repo, g, order);
    forall id | id in order ensures Yield(b, repo, g, id).Some? ==> Yield(b, repo, g, id).value in entries {
      YieldId(b, repo, g, id);
    }
  }

  lemma YieldId(b: Backend, repo: string, g: Option<string>, id: string)
    ensures var e := Yield(b, repo, g, id); e.Some? ==> e.value.capabilityId == id
  {
    YieldFits(b, repo, g, id);
    hide Yield;
  }

  // ----- the evidences -----

  /** The candidate has at most one evidence, its own, with its least distance. */
  ghost predicate GroupOk(repo: string, d: Distances, id: string, groups: map<string, seq<Evidence>>) {
    id in groups && id in d.best && |groups[id]| <= 1
    && forall v :: v in groups[id] ==>
         v.capabilityId == id && v.repoId == repo && v.capabilityScore == ScoreFromDistance(d.best[id])
  }

  /** Each candidate has at most one evidence, its own. */
  ghost predicate GroupsOk(repo: string, d: Distances, groups: map<string, seq<Evidence>>) {
    forall id :: id in d.order ==> GroupOk(repo, d, id, groups)
  }

  lemma {:induction false} FlattenEmpty(order: seq<string>, groups: map<string, seq<Evidence>>)
    requires forall id :: id in order ==> id in groups
    ensures Flatten(order, groups) == [] <==> forall id :: id in order ==> groups[id] == []
  {
    if order != [] {
      FlattenEmpty(order[1..], groups);
      assert order == [order[0]] + order[1..];
    }
  }

  /** In the assembled state each candidate has at most one evidence, and one exactly when it has an entry. */
  lemma AssembledSingle(
    parse: string -> Parsed, repo: string, d: Distances, entries: seq<RawEntry>, noted: bool, a: Assembly)
    requires Assembled(parse, repo, d, entries, noted, a) && Nonblank(repo) && Keyed(d) && AllFit(repo, d, entries)
    ensures GroupsOk(repo, d, a.groups)
    ensures forall e :: e in entries ==> e.capabilityId in a.groups && a.groups[e.capabilityId] != []
    ensures entries == [] ==> forall id :: id in d.order ==> id in a.groups && a.groups[id] == []
  {
    forall id | id in d.order ensures GroupOk(repo, d, id, a.groups) {
      SingleGroup(parse, repo, d, entries, noted, a, id);
    }
    hide EvidenceOf, EntryFits, Nonblank, Complete;
  }

  lemma SingleGroup(
    parse: string -> Parsed, repo: string, d: Distances, entries: seq<RawEntry>, noted: bool, a: Assembly, id: string)
    requires Assembled(parse, repo, d, entries, noted, a) && Nonblank(repo) && id in d.best && AllFit(repo, d, entries)
    ensures GroupOk(repo, d, id, a.groups)
  {
    hide *;
    var e := GroupIs(parse, repo, d, entries, noted, a, id);
    if e.Some? {
      EntryAllFit(repo, d, entries, e.value);
      EvidenceAccepted(parse, repo, d, e.value);
      GroupOkOne(repo, d, id, a.groups, EvidenceOf(parse, repo, d, e.value).value);
    } else {
      GroupOkNone(repo, d, id, a.groups);
    }
  }

  lemma EntryAllFit(repo: string, d: Distances, entries: seq<RawEntry>, e: RawEntry)
    requires AllFit(repo, d, entries) && e in entries
    ensures e.capabilityId in d.best && EntryFits(repo, e.capabilityId, e)
  {
    hide EntryFits;
  }

  lemma GroupOkOne(repo: string, d: Distances, id: string, groups: map<string, seq<Evidence>>, v: Evidence)
    requires id in groups && id in d.best && groups[id] == [v]
    requires v.capabilityId == id && v.repoId == repo && v.capabilityScore == ScoreFromDistance(d.best[id])
    ensures GroupOk(repo, d, id, groups)
  {
  }

  lemma GroupOkNone(repo: string, d: Distances, id: string, groups: map<string, seq<Evidence>>)
    requires id in groups && id in d.best && groups[id] == []
    ensures GroupOk(repo, d, id, groups)
  {
  }

  lemma GroupIs(
    parse: string -> Parsed, repo: string, d: Distances, entries: seq<RawEntry>, noted: bool, a: Assembly, id: string)
    returns (e: Option<RawEntry>)
    requires Assembled(parse, repo, d, entries, noted, a) && id in d.best
    ensures id in a.groups
    ensures match e
            case Some(raw) => raw in entries && raw.capabilityId == id && Parses(parse, raw)
                              && EvidenceOf(parse, repo, d, raw).Some?
                              && a.groups[id] == [EvidenceOf(parse, repo, d, raw).value]
            case None => a.groups[id] == []
  {
    hide Complete, MakeEvidence, Draft, EndpointOf;
    if raw :| raw in entries && raw.capabilityId == id {
      e := Some(raw);
      assert EvidenceOf(parse, repo, d, raw).Some?;
    } else {
      e := None;
    }
  }

  /** One minus the distance, kept between zero and one. */
  ghost predicate ScoreFits(score: real, distance: real) {
    score == if distance < 0.0 then 1.0 else if distance > 1.0 then 0.0 else 1.0 - distance
  }

  /** The evidence is of this repository and of a candidate, scored by the candidate's least distance. */
  ghost predicate EvidenceFact(repo: string, candidates: seq<Candidate>, v: Evidence) {
    && v.repoId == repo && Has(candidates, v.capabilityId)
    && exists c :: && c in candidates && c.capabilityId == v.capabilityId
                   && ScoreFits(v.capabilityScore, c.distance)
                   && forall c' :: c' in candidates && c'.capabilityId == v.capabilityId ==> c.distance <= c'.distance
  }

  lemma LeastDistance(best: map<string, real>, candidates: seq<Candidate>, id: string)
    requires HeldExactly(best, candidates) && id in best
    ensures Has(candidates, id)
    ensures var c := Candidate(id, best[id]);
            c in candidates && forall c' :: c' in candidates && c'.capabilityId == id ==> c.distance <= c'.distance
  {
    hide Has;
  }

  lemma GroupFact(
    repo: string, candidates: seq<Candidate>, d: Distances, groups: map<string, seq<Evidence>>, v: Evidence)
    requires GroupOk(repo, d, v.capabilityId, groups) && HeldExactly(d.best, candidates) && v in groups[v.capabilityId]
    ensures EvidenceFact(repo, candidates, v)
  {
    hide HeldExactly, Has;
    LeastDistance(d.best, candidates, v.capabilityId);
    var c := Candidate(v.capabilityId, d.best[v.capabilityId]);
    assert c in candidates;
  }

  lemma GroupsSingle(repo: string, d: Distances, groups: map<string, seq<Evidence>>)
    requires GroupsOk(repo, d, groups)
    ensures SingleGroups(d.order, groups)
  {
  }

  /** The flattened groups are facts about the candidates, in the order of the ids. */
  lemma FlattenedFacts(repo: string, candidates: seq<Candidate>, d: Distances, groups: map<string, seq<Evidence>>)
    requires GroupsOk(repo, d, groups) && HeldExactly(d.best, candidates)
    requires forall id :: id in d.order ==> id in groups
    ensures InOrder(d.order, Flatten(d.order, groups))
    ensures forall v :: v in Flatten(d.order, groups) ==> EvidenceFact(repo, candidates, v)
  {
    GroupsSingle(repo, d, groups);
    FlattenOrder(d.order, groups);
    hide Flatten, InOrder, EvidenceFact, HeldExactly, GroupOk;
    forall v | v in Flatten(d.order, groups) ensures EvidenceFact(repo, candidates, v) {
      GroupFact(repo, candidates, d, groups, v);
    }
  }

  /**
   The evidences come in the order in which the candidates first occur, at most one for each
   capability, scored by its least distance.
   */
  lemma EvidencesOrdered(
    b: Backend, repo: string, candidates: seq<Candidate>, generation: Option<string>, r: LookupResult)
    requires Ready(repo, candidates, generation) && Find(b, repo, candidates, generation) == Ok(r)
    ensures forall v :: v in r.evidences ==> EvidenceFact(repo, candidates, v)
    ensures InOrder(Dedup(IdsOf(candidates)), r.evidences)
  {
    hide *;
    var f, a := FindCases(b, repo, candidates, generation);
    StateMeans(b, repo, candidates, generation, f, a);
    var d := Collect(candidates);
    OrderIs(candidates);
    CollectExact(candidates);
    AssembledSingle(b.parse, repo, d, f.entries, f.reasons != [], a);
    FinishValid(d, a);
    FlattenedFacts(repo, candidates, d, a.groups);
  }

  // ----- FOUND -----

  /** The assembled evidences are empty exactly when there was no entry. */
  lemma EvidencesFromEntries(parse: string -> Parsed, repo: string, d: Distances, f: Finding, a: Assembly)
    requires Assembled(parse, repo, d, f.entries, f.reasons != [], a) && Nonblank(repo) && Keyed(d)
    requires AllFit(repo, d, f.entries) && forall id :: id in d.order ==> id in a.groups
    ensures Flatten(d.order, a.groups) == [] <==> f.entries == []
  {
    AssembledSingle(parse, repo, d, f.entries, f.reasons != [], a);
    if f.entries != [] {
      EntryAllFit(repo, d, f.entries, f.entries[0]);
      assert f.entries[0] in f.entries && f.entries[0].capabilityId in d.order;
    }
    hide *;
    FlattenEmpty(d.order, a.groups);
  }

  ghost predicate AllClean(b: Backend, repo: string, generation: Option<string>, ids: seq<string>) {
    forall id :: id in ids ==> Clean(b, repo, generation, id)
  }

  /** Without reasons the entries are those of resolved candidates: all are complete when all candidates are clean. */
  lemma GatheredClean(b: Backend, repo: string, generation: Option<string>, ids: seq<string>, f: Finding)
    requires Gathered(b, repo, Normalized(generation), ids, f)
    ensures f.reasons == [] && AllComplete(b.parse, f.entries) <==> AllClean(b, repo, generation, ids)
    ensures f.reasons == [] && ids != [] ==> f.entries != []
  {
    var g := Normalized(generation);
    EntriesFit(b, repo, g, ids);
    hide Normalized, Complete, EntryFits, EntriesOf;
    forall id | id in ids && Resolves(b, repo, g, id)
      ensures Yield(b, repo, g, id).Some? && Yield(b, repo, g, id).value in f.entries
    {
      YieldId(b, repo, g, id);
    }
    hide Resolves;
    assert ids != [] ==> ids[0] in ids;
    assert forall id :: id in ids && Clean(b, repo, generation, id) ==> Complete(b.parse, Yield(b, repo, g, id).value);
  }

  /** A clean candidate is answered. */
  lemma CleanAnswered(b: Backend, repo: string, generation: Option<string>, id: string)
    requires Clean(b, repo, generation, id)
    ensures Answered(b, repo, generation, id)
  {
    ResolvesRead(b, repo, Normalized(generation), id);
    hide Resolves, ReadsAnswer, LinesConvert, Yield, Normalized, Parses;
  }

  lemma CleanCandidates(b: Backend, repo: string, generation: Option<string>, candidates: seq<Candidate>)
    ensures var d := Collect(candidates);
            && (AllClean(b, repo, generation, d.order)
                <==> forall c :: c in candidates ==> Clean(b, repo, generation, c.capabilityId))
            && (d.order == [] <==> candidates == [])
  {
    OrderOfCandidates(candidates);
    hide Clean, Collect;
    forall c | c in candidates ensures c.capabilityId in Collect(candidates).order {}
  }

  lemma OrderOfCandidates(candidates: seq<Candidate>)
    ensures var d := Collect(candidates);
            && (forall id :: id in d.order <==> exists c :: c in candidates && c.capabilityId == id)
            && (d.order == [] <==> candidates == [])
  {
    CollectOrder(candidates);
    CollectExact(candidates);
    var d := Collect(candidates);
    hide Collect, Dedup;
    forall id ensures id in d.order <==> exists c :: c in candidates && c.capabilityId == id {
      assert id in d.best <==> Has(candidates, id);
    }
    assert candidates != [] ==> candidates[0] in candidates && candidates[0].capabilityId in d.order;
    assert d.order != [] ==> d.order[0] in d.order && Has(candidates, d.order[0]);
  }

  /**
   The lookup gives a result and the result is FOUND exactly when there are candidates and each is clean:
   resolved in the stored facts, with metadata that reads completely.
   */
  lemma FoundExactly(b: Backend, repo: string, candidates: seq<Candidate>, generation: Option<string>)
    requires Ready(repo, candidates, generation)
    ensures var r := Find(b, repo, candidates, generation);
            r.Ok? && r.value.status.Found?
            <==> candidates != [] && forall c :: c in candidates ==> Clean(b, repo, generation, c.capabilityId)
  {
    hide *;
    var r := Find(b, repo, candidates, generation);
    FindAnswersExactly(b, repo, candidates, generation);
    forall c | c in candidates && Clean(b, repo, generation, c.capabilityId)
      ensures Answered(b, repo, generation, c.capabilityId)
    {
      CleanAnswered(b, repo, generation, c.capabilityId);
    }
    if r.Ok? {
      FoundWhenClean(b, repo, candidates, generation);
      CleanCandidates(b, repo, generation, candidates);
    }
  }

  lemma FoundWhenClean(b: Backend, repo: string, candidates: seq<Candidate>, generation: Option<string>)
    requires Ready(repo, candidates, generation) && Find(b, repo, candidates, generation).Ok?
    ensures var order := Collect(candidates).order;
            Find(b, repo, candidates, generation).value.status.Found?
            <==> order != [] && AllClean(b, repo, generation, order)
  {
    hide *;
    var f, a := FindCases(b, repo, candidates, generation);
    StateMeans(b, repo, candidates, generation, f, a);
    var d := Collect(candidates);
    EvidencesFromEntries(b.parse, repo, d, f, a);
    FinishValid(d, a);
    GatheredClean(b, repo, generation, d.order, f);
    if f.entries != [] {
      EntryAllFit(repo, d, f.entries, f.entries[0]);
      KeyedMember(d, f.entries[0].capabilityId);
    }
  }

  lemma KeyedMember(d: Distances, id: string)
    requires Keyed(d) && id in d.best
    ensures d.order != []
  {
  }

  // ----- stored contents on which the lookup raises -----

  const EXAMPLE_CAPABILITY: Fields := map[
    "id" := Str("cap"), "name" := Str("pay"), "businessDomain" := Str("shop"), "repoId" := Str("repo"),
    "entryCodeEntityId" := Str("code")
  ]

  const EXAMPLE_RELATION: Fields := map[
    "source_id" := Str("cap"), "target_id" := Str("code"), "rel_type" := Str("REALIZED_BY")
  ]

  function ExampleCode(line: string, metadata: string): Fields {
    map["id" := Str("code"), "name" := Str("Pay"), "repoId" := Str("repo"), "startLine" := Str(line),
        "entryMetadata" := Str(metadata)]
  }

  /** One capability, realized by one code entity whose line and metadata are given; every read is answered. */
  function Example(line: string, metadata: string, parse: string -> Parsed): Backend {
    Backend((id: string) => Some(if id == "cap" then Record(EXAMPLE_CAPABILITY)
                                 else if id == "code" then Record(ExampleCode(line, metadata))
                                 else Absent),
            (id: string) => Some(Rows([Row(EXAMPLE_RELATION, None)])), parse)
  }

  const EXAMPLE_CANDIDATES: seq<Candidate> := [Candidate("cap", 0.0)]

  lemma ExampleReady()
    ensures Ready("repo", EXAMPLE_CANDIDATES, None) && Candidate("cap", 0.0) in EXAMPLE_CANDIDATES
    ensures forall c :: c in EXAMPLE_CANDIDATES ==> c == Candidate("cap", 0.0)
  {
    assert !IsSpace("repo"[0]) && !IsSpace("cap"[0]);
    assert Candidate("cap", 0.0) == EXAMPLE_CANDIDATES[0];
  }

  lemma PlainText(s: string)
    requires s != "" && !IsSpace(s[0])
    ensures Nonblank(s)
  {
  }

  const EXAMPLE_ENTRY: Capability := Capability("cap", "pay", "shop", "repo", "code")

  lemma ExampleTexts()
    ensures Nonblank("cap") && Nonblank("pay") && Nonblank("shop")
    ensures Nonblank("repo") && Nonblank("code") && Nonblank("Pay")
  {
    PlainText("cap");
    PlainText("pay");
    PlainText("shop");
    PlainText("repo");
    PlainText("code");
    PlainText("Pay");
    hide Nonblank;
  }

  lemma ExampleAccepted(line: string, metadata: string, parse: string -> Parsed)
    ensures Accepted(Example(line, metadata, parse), "repo", None, "cap") == Some(EXAMPLE_ENTRY)
  {
    ExampleTexts();
    hide Nonblank, ExampleCode;
    assert CapabilityOf(EXAMPLE_CAPABILITY) == Some(EXAMPLE_ENTRY);
  }

  lemma ExampleNamed(line: string, metadata: string, parse: string -> Parsed)
    ensures NamesEntry(Example(line, metadata, parse), None, EXAMPLE_ENTRY)
    ensures RowsClean(Example(line, metadata, parse).realizedBy("cap").value, EXAMPLE_ENTRY, None)
  {
    ExampleTexts();
    var row := Row(EXAMPLE_RELATION, None);
    var relations := Rows([row]);
    assert Example(line, metadata, parse).realizedBy("cap") == Some(relations);
    assert RowTarget(row, "cap", None) == Some("code") by { hide Nonblank; }
    assert RowsClean(relations, EXAMPLE_ENTRY, None) by { hide RowTarget; }
    hide Nonblank, RowTarget, Example, RowsClean, RelationTargets;
    RelationsClean(relations, EXAMPLE_ENTRY, None);
    assert "code" in ["code"];
  }

  lemma ExampleRead(line: string, metadata: string, parse: string -> Parsed)
    ensures var b, code := Example(line, metadata, parse), ExampleCode(line, metadata);
            && Accepted(b, "repo", None, "cap") == Some(EXAMPLE_ENTRY)
            && CodeOf(b, "repo", None, "cap") == Some(code) && ReadsAnswer(b, "repo", None, "cap")
            && Located(code, "code", "repo", None)
  {
    ExampleAccepted(line, metadata, parse);
    ExampleNamed(line, metadata, parse);
    ExampleTexts();
    hide Nonblank, Accepted, NamesEntry, RowsClean;
  }

  /** A line text of more digits than the interpreter converts makes the lookup raise, whatever the metadata. */
  lemma OverlongLineRaises(digits: nat, metadata: string, parse: string -> Parsed)
    requires digits > MAX_DIGITS
    ensures Find(Example(seq(digits, _ => '1'), metadata, parse), "repo", EXAMPLE_CANDIDATES, None) == Err(LineTooLong)
  {
    var line := seq(digits, _ => '1');
    var b := Example(line, metadata, parse);
    PlainKey(line);
    assert Overlong(ExampleCode(line, metadata), "startLine") by {
      assert IsDecimal(line);
      hide Strip;
    }
    ExampleRead(line, metadata, parse);
    hide Example, ExampleCode, Overlong, CodeOf, Accepted, Located, ReadsAnswer, Strip;
    assert !LinesConvert(b, "repo", None, "cap");
    ExampleFails(b);
    assert b.parse == parse;
  }

  lemma ExampleFails(b: Backend)
    requires ReadsAnswer(b, "repo", None, "cap") && !LinesConvert(b, "repo", None, "cap")
    ensures Find(b, "repo", EXAMPLE_CANDIDATES, None) == Err(LineTooLong)
  {
    assert Normalized(None) == None;
    var c := Candidate("cap", 0.0);
    assert !Answered(b, "repo", None, c.capabilityId);
    hide *;
    ExampleReady();
    FindAnswersExactly(b, "repo", EXAMPLE_CANDIDATES, None);
    var r := Find(b, "repo", EXAMPLE_CANDIDATES, None);
    assert c in EXAMPLE_CANDIDATES && c.capabilityId == "cap";
    assert r.Err?;
  }

  /** A metadata text whose reader raises makes the lookup raise, though every line converts. */
  lemma RaisingMetadataRaises(metadata: string, parse: string -> Parsed)
    requires Nonblank(metadata) && parse(metadata).ParserRaises?
    ensures Find(Example("1", metadata, parse), "repo", EXAMPLE_CANDIDATES, None) == Err(ParserRaised)
  {
    var b, code := Example("1", metadata, parse), ExampleCode("1", metadata);
    ExampleRead("1", metadata, parse);
    ExampleYields(metadata);
    var raw := RawFromNodes(EXAMPLE_ENTRY, code, "code", "repo", None).raw;
    assert EXAMPLE_ENTRY.entryId == "code";
    EndpointAccepted(parse, raw.entryCategory, raw.entryMetadata);
    UnreadableMeans(EXAMPLE_ENTRY, code, "code", "repo", None);
    assert b.parse == parse;
    hide Example, ExampleCode, RawFromNodes, CodeOf, Accepted, Located, ReadsAnswer, Nonblank, Overlong;
    hide EndpointFromMetadata;
    assert Yield(b, "repo", None, "cap") == Some(raw);
    ExampleUnparsed(b);
  }

  lemma ExampleYields(metadata: string)
    ensures var r := RawFromNodes(EXAMPLE_ENTRY, ExampleCode("1", metadata), "code", "repo", None);
            r.Entry? && r.raw.entryMetadata == Some(metadata)
  {
    ExampleLine(metadata);
    ExampleFields("1", metadata);
    assert EXAMPLE_ENTRY.id == "cap";
    hide OptionalLine, OptionalString, Required, ExampleCode, EXAMPLE_ENTRY;
  }

  lemma ExampleFields(line: string, metadata: string)
    ensures var code := ExampleCode(line, metadata);
            && Required(code, "id") == Some("code") && Required(code, "name") == Some("Pay")
            && Required(code, "repoId") == Some("repo") && OptionalLine(code, "endLine") == Usable(None)
            && OptionalString(code, "entryCategory", false) == (true, None)
            && OptionalString(code, "filePath", true) == (true, None)
            && OptionalString(code, "entryMetadata", false) == (true, Some(metadata))
  {
    ExampleTexts();
    hide Nonblank;
  }

  lemma ExampleLine(metadata: string)
    ensures OptionalLine(ExampleCode("1", metadata), "startLine") == Usable(Some(1))
  {
    PlainKey("1");
    assert "1"[..0] == "" && ToNat("") == 0;
    assert ToNat("1") == 1;
    assert LineOf("1") == Usable(Some(1));
    hide Strip, LineOf;
  }

  lemma ExampleUnparsed(b: Backend)
    requires ReadsAnswer(b, "repo", None, "cap") && LinesConvert(b, "repo", None, "cap")
    requires !MetadataParses(b, "repo", None, "cap")
    ensures Find(b, "repo", EXAMPLE_CANDIDATES, None) == Err(ParserRaised)
  {
    assert Normalized(None) == None;
    hide *;
    ExampleReady();
    FindAnswersExactly(b, "repo", EXAMPLE_CANDIDATES, None);
  }
}
