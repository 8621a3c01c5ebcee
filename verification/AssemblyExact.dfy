/** What the assembly makes of any repository finding, entry by entry. */
module AssemblyExact {
  import opened BusinessEntry
  import opened Collections
  import opened LookupAssembly
  import opened RealizationLookup
  import opened Texts
  import opened Wrappers

  ghost predicate Foreign(repo: string, e: RawEntry) { e.capabilityRepoId != repo || e.codeEntityRepoId != repo }

  /** The entry is of this repository and of a candidate. */
  ghost predicate Fits(repo: string, d: Distances, e: RawEntry) { !Foreign(repo, e) && e.capabilityId in d.best }

  function KeyOf(e: RawEntry): (string, string) { (e.capabilityId, e.codeEntityId) }

  /** The entry fits and is the first of its capability and code entity to do so. */
  ghost predicate Serves(repo: string, d: Distances, seen: set<(string, string)>, entries: seq<RawEntry>, i: nat)
    requires i < |entries|
  {
    && Fits(repo, d, entries[i]) && KeyOf(entries[i]) !in seen
    && forall k :: 0 <= k < i && Fits(repo, d, entries[k]) ==> KeyOf(entries[k]) != KeyOf(entries[i])
  }

  /** The entry's metadata gives this reason, or the entry has no path and this is the reason for it. */
  ghost predicate EntryNoted(parse: string -> Parsed, raw: RawEntry, x: Reason) {
    var endpoint := EndpointOf(parse, raw);
    (endpoint.Some? && endpoint.value.reason == Some(x)) || (x == MissingEntryMetadata && raw.filePath.None?)
  }

  /** The reason comes of the entry at this place. */
  ghost predicate Gives(
    parse: string -> Parsed, repo: string, d: Distances, seen: set<(string, string)>, entries: seq<RawEntry>, i: nat,
    x: Reason)
    requires i < |entries|
  {
    || (x == RepoMismatch && Foreign(repo, entries[i]))
    || (x == CorruptGraphData && !Foreign(repo, entries[i]) && entries[i].capabilityId !in d.best)
    || (Serves(repo, d, seen, entries, i) && EntryNoted(parse, entries[i], x))
  }

  /** The entry at this place is the candidate's, counts, and makes the evidence. */
  ghost predicate MakesFor(
    parse: string -> Parsed, repo: string, d: Distances, seen: set<(string, string)>, entries: seq<RawEntry>, i: nat,
    id: string, v: Evidence)
    requires i < |entries|
  {
    && entries[i].capabilityId == id && Serves(repo, d, seen, entries, i)
    && EvidenceOf(parse, repo, d, entries[i]) == Some(v)
  }

  /** What the entries add to the reasons and to the evidences. */
  ghost predicate Added(
    parse: string -> Parsed, repo: string, d: Distances, entries: seq<RawEntry>, a: Assembly, r: Assembly)
  {
    && (forall x :: x in r.reasons
          <==> x in a.reasons || exists i :: 0 <= i < |entries| && Gives(parse, repo, d, a.seen, entries, i, x))
    && r.groups.Keys == a.groups.Keys
    && (forall id, v :: id in r.groups ==>
          (v in r.groups[id]
           <==> || v in a.groups[id]
                || exists i :: 0 <= i < |entries| && MakesFor(parse, repo, d, a.seen, entries, i, id, v)))
  }

  /** One entry: skipped with a reason, skipped as served, or added. */
  lemma StepCases(parse: string -> Parsed, repo: string, d: Distances, e: RawEntry, a: Assembly)
    requires a.groups.Keys == d.best.Keys && StepRaw(parse, repo, d, e, a).Ok?
    ensures var r := StepRaw(parse, repo, d, e, a).value;
            if Foreign(repo, e) then r == a.(reasons := AppendReason(a.reasons, RepoMismatch))
            else if e.capabilityId !in d.best then r == a.(reasons := AppendReason(a.reasons, CorruptGraphData))
            else if KeyOf(e) in a.seen then r == a
            else var v := EvidenceOf(parse, repo, d, e);
                 && v.Some? && EndpointOf(parse, e).Some?
                 && r.groups == a.groups[e.capabilityId := a.groups[e.capabilityId] + [v.value]]
                 && r.seen == a.seen + {KeyOf(e)}
                 && forall x :: x in r.reasons <==> x in a.reasons || EntryNoted(parse, e, x)
  {
    hide MakeEvidence, Draft, EndpointOf, Nonblank;
  }

  lemma ServesTail(
    repo: string, d: Distances, seen: set<(string, string)>, entries: seq<RawEntry>, i: nat)
    requires 0 < i < |entries|
    ensures Serves(repo, d, seen, entries, i)
       <==> Serves(repo, d, SeenAfter(repo, d, seen, entries[0]), entries[1..], i - 1)
  {
    var rest := entries[1..];
    hide Fits;
    assert forall k :: 0 <= k < |rest| ==> rest[k] == entries[k + 1];
    forall k | 0 <= k < i && Fits(repo, d, entries[k]) && k > 0 ensures rest[k - 1] == entries[k] {}
  }

  ghost function SeenAfter(
    repo: string, d: Distances, seen: set<(string, string)>, e: RawEntry): set<(string, string)>
  {
    if Fits(repo, d, e) then seen + {KeyOf(e)} else seen
  }

  /** The first of some entries, on its own. */
  lemma StepAdds(parse: string -> Parsed, repo: string, d: Distances, entries: seq<RawEntry>, a: Assembly)
    requires entries != [] && a.groups.Keys == d.best.Keys && StepRaw(parse, repo, d, entries[0], a).Ok?
    ensures var r := StepRaw(parse, repo, d, entries[0], a).value;
            && r.seen == SeenAfter(repo, d, a.seen, entries[0]) && r.groups.Keys == a.groups.Keys
            && (forall x :: x in r.reasons <==> x in a.reasons || Gives(parse, repo, d, a.seen, entries, 0, x))
            && (forall id, v :: id in r.groups ==>
                  (v in r.groups[id]
                   <==> || v in a.groups[id]
                        || MakesFor(parse, repo, d, a.seen, entries, 0, id, v)))
  {
    StepCases(parse, repo, d, entries[0], a);
    hide StepRaw, EntryNoted, EvidenceOf, EndpointOf;
  }

  lemma TailGives(
    parse: string -> Parsed, repo: string, d: Distances, seen: set<(string, string)>, entries: seq<RawEntry>, x: Reason)
    requires entries != []
    ensures var rest, seen' := entries[1..], SeenAfter(repo, d, seen, entries[0]);
            (exists i :: 0 <= i < |entries| && Gives(parse, repo, d, seen, entries, i, x))
            <==> || Gives(parse, repo, d, seen, entries, 0, x)
                 || exists i :: 0 <= i < |rest| && Gives(parse, repo, d, seen', rest, i, x)
  {
    var rest, seen' := entries[1..], SeenAfter(repo, d, seen, entries[0]);
    forall i | 0 <= i < |rest|
      ensures Gives(parse, repo, d, seen', rest, i, x) <==> Gives(parse, repo, d, seen, entries, i + 1, x)
    {
      ServesTail(repo, d, seen, entries, i + 1);
      hide Serves, EntryNoted;
    }
    hide Gives;
    if i :| 0 <= i < |entries| && Gives(parse, repo, d, seen, entries, i, x) {
      if i > 0 {
        assert Gives(parse, repo, d, seen', rest, i - 1, x);
      }
    }
  }

  lemma TailMakes(
    parse: string -> Parsed, repo: string, d: Distances, seen: set<(string, string)>, entries: seq<RawEntry>,
    id: string, v: Evidence)
    requires entries != []
    ensures var rest, seen' := entries[1..], SeenAfter(repo, d, seen, entries[0]);
            (exists i :: 0 <= i < |entries| && MakesFor(parse, repo, d, seen, entries, i, id, v))
            <==> || MakesFor(parse, repo, d, seen, entries, 0, id, v)
                 || exists i :: 0 <= i < |rest| && MakesFor(parse, repo, d, seen', rest, i, id, v)
  {
    var rest, seen' := entries[1..], SeenAfter(repo, d, seen, entries[0]);
    forall i | 0 <= i < |rest|
      ensures MakesFor(parse, repo, d, seen', rest, i, id, v) <==> MakesFor(parse, repo, d, seen, entries, i + 1, id, v)
    {
      ServesTail(repo, d, seen, entries, i + 1);
      hide Serves, EvidenceOf;
    }
    hide MakesFor;
    if i :| 0 <= i < |entries| && MakesFor(parse, repo, d, seen, entries, i, id, v) {
      if i > 0 {
        assert MakesFor(parse, repo, d, seen', rest, i - 1, id, v);
      }
    }
  }

  lemma AddedCons(
    parse: string -> Parsed, repo: string, d: Distances, entries: seq<RawEntry>, a: Assembly, m: Assembly, r: Assembly)
    requires entries != [] && a.groups.Keys == d.best.Keys && StepRaw(parse, repo, d, entries[0], a) == Ok(m)
    requires Added(parse, repo, d, entries[1..], m, r)
    ensures Added(parse, repo, d, entries, a, r)
  {
    StepAdds(parse, repo, d, entries, a);
    hide StepRaw, Gives, SeenAfter, MakesFor;
    forall x
      ensures x in r.reasons
        <==> x in a.reasons || exists i :: 0 <= i < |entries| && Gives(parse, repo, d, a.seen, entries, i, x)
    {
      TailGives(parse, repo, d, a.seen, entries, x);
    }
    forall id, v | id in r.groups
      ensures v in r.groups[id]
        <==> || v in a.groups[id]
             || exists i :: 0 <= i < |entries| && MakesFor(parse, repo, d, a.seen, entries, i, id, v)
    {
      TailMakes(parse, repo, d, a.seen, entries, id, v);
    }
  }

  /** The entries add just the reasons they give and the evidences they make. */
  lemma {:induction false} EntriesAdded(
    parse: string -> Parsed, repo: string, d: Distances, entries: seq<RawEntry>, a: Assembly)
    requires a.groups.Keys == d.best.Keys && StepEntries(parse, repo, d, entries, a).Ok?
    ensures Added(parse, repo, d, entries, a, StepEntries(parse, repo, d, entries, a).value)
    decreases |entries|
  {
    StepEntriesCons(parse, repo, d, entries, a);
    if entries != [] {
      var m := StepRaw(parse, repo, d, entries[0], a).value;
      hide *;
      EntriesAdded(parse, repo, d, entries[1..], m);
      AddedCons(parse, repo, d, entries, a, m, StepEntries(parse, repo, d, entries, a).value);
    }
  }

  // ----- the result -----

  lemma {:induction false} FlattenHolds(order: seq<string>, groups: map<string, seq<Evidence>>, v: Evidence)
    requires forall id :: id in order ==> id in groups
    ensures v in Flatten(order, groups) <==> exists id :: id in order && v in groups[id]
  {
    if order != [] {
      FlattenHolds(order[1..], groups, v);
      assert order == [order[0]] + order[1..];
    }
  }

  /** The finding that stands for a store that could not be read, or one that hides such a reason among others. */
  ghost predicate Unread(f: Finding) { BackendUnavailable in f.reasons }

  /** The default reason, where there is no evidence and no other reason. */
  ghost predicate Defaults(candidates: seq<Candidate>, x: Reason) {
    x == if candidates == [] then NoCapabilityMatch else NoRealization
  }

  ghost predicate StatusFits(r: LookupResult) {
    match r.status
    case Found => r.evidences != [] && r.reasons == []
    case NotFound =>
      r.evidences == [] && forall x :: x in r.reasons ==> x == NoCapabilityMatch || x == NoRealization
    case Degraded =>
      if r.evidences == [] then exists x :: x in r.reasons && x != NoCapabilityMatch && x != NoRealization
      else r.reasons != []
    case Unavailable => false
  }

  /** The finding has the reason itself or one of its entries gives it. */
  ghost predicate Given(parse: string -> Parsed, repo: string, d: Distances, f: Finding, x: Reason) {
    x in f.reasons || exists i :: 0 <= i < |f.entries| && Gives(parse, repo, d, {}, f.entries, i, x)
  }

  /** One of the finding's entries makes the evidence. */
  ghost predicate Made(parse: string -> Parsed, repo: string, d: Distances, f: Finding, v: Evidence) {
    exists i :: 0 <= i < |f.entries| && MakesFor(parse, repo, d, {}, f.entries, i, f.entries[i].capabilityId, v)
  }

  /** What the last step makes of the state that the entries left. */
  lemma FinishExact(d: Distances, a: Assembly, candidates: seq<Candidate>)
    requires (forall id :: id in d.order ==> id in a.groups) && Finish(d, a).Ok?
    requires d.order == [] <==> candidates == []
    ensures var r := Finish(d, a).value;
            && r.evidences == Flatten(d.order, a.groups) && StatusFits(r)
            && (Distinct(a.reasons) ==> Distinct(r.reasons))
            && (forall x :: x in r.reasons
                  <==> x in a.reasons || (r.evidences == [] && a.reasons == [] && Defaults(candidates, x)))
  {
    hide Flatten;
  }

  lemma StartIs(d: Distances, f: Finding)
    ensures var a := StartOf(d, f);
            && a.groups.Keys == d.best.Keys && a.seen == {} && (forall id :: id in a.groups ==> a.groups[id] == [])
            && (forall x :: x in a.reasons <==> x in f.reasons) && Distinct(a.reasons)
  {
    StableEmpty(f.reasons);
    StableDistinct(f.reasons);
  }

  lemma AssembleUnfolds(parse: string -> Parsed, repo: string, candidates: seq<Candidate>, f: Finding)
    requires Nonblank(repo) && !Unread(f)
    ensures StartOf(Collect(candidates), f).groups.Keys == Collect(candidates).best.Keys
    ensures forall id :: id in Collect(candidates).order <==> id in Collect(candidates).best
    ensures var d := Collect(candidates);
            var a := StepEntries(parse, repo, d, f.entries, StartOf(d, f));
            Assemble(parse, repo, candidates, f) == if a.Err? then Err(a.error) else Finish(d, a.value)
  {
    CollectKeys(candidates);
    hide StepEntries, Collect, Finish, StableReasons;
    assert f.reasons != [BackendUnavailable];
  }

  /**
   The assembly refuses a blank repository and a finding that mixes an unread store with anything else;
   an unread store alone is passed on as unavailable.
   */
  lemma AssembleRefuses(parse: string -> Parsed, repo: string, candidates: seq<Candidate>, f: Finding)
    ensures var r := Assemble(parse, repo, candidates, f);
            && (!Nonblank(repo) ==> r == Err(InvalidArgument))
            && (Nonblank(repo) && f == Finding([], [BackendUnavailable]) ==>
                  r == Ok(LookupResult(Unavailable, [], [BackendUnavailable])))
            && (Nonblank(repo) && Unread(f) && f != Finding([], [BackendUnavailable]) ==> r == Err(InvalidArgument))
  {
    hide Nonblank, Collect, StepEntries, Finish;
  }

  /**
   The assembly of any other finding, entry by entry: entries of another repository and of no candidate
   give only their reasons; of the entries that fit, the first of each capability and code entity makes an
   evidence and gives the reasons of its metadata; the finding's own reasons stay. Without evidence and
   reasons there is the default one, and the status fits evidences and reasons.
   */
  lemma AssembleExact(parse: string -> Parsed, repo: string, candidates: seq<Candidate>, f: Finding)
    requires Nonblank(repo) && !Unread(f) && Assemble(parse, repo, candidates, f).Ok?
    ensures var r, d := Assemble(parse, repo, candidates, f).value, Collect(candidates);
            && (forall x :: x in r.reasons
                  <==> || Given(parse, repo, d, f, x)
                       || (r.evidences == [] && (forall y :: !Given(parse, repo, d, f, y)) && Defaults(candidates, x)))
            && (forall v :: v in r.evidences <==> Made(parse, repo, d, f, v))
            && StatusFits(r) && Distinct(r.reasons)
  {
    hide *;
    var d := Collect(candidates);
    AssembleUnfolds(parse, repo, candidates, f);
    StartIs(d, f);
    OrderOfCandidates(candidates);
    var start := StartOf(d, f);
    var a := StepEntries(parse, repo, d, f.entries, start).value;
    EntriesAdded(parse, repo, d, f.entries, start);
    AddedMeans(parse, repo, d, f, start, a);
    assert a.reasons != [] ==> a.reasons[0] in a.reasons;
    EntriesDistinct(parse, repo, d, f.entries, start);
    FinishExact(d, a, candidates);
  }

  lemma {:induction false} StableDistinct(reasons: seq<Reason>)
    ensures Distinct(StableReasons(reasons))
  {
    if reasons != [] { StableDistinct(reasons[..|reasons| - 1]); }
  }

  lemma AppendDistinct(reasons: seq<Reason>, x: Reason)
    requires Distinct(reasons)
    ensures Distinct(AppendReason(reasons, x))
  {
    DistinctSnoc(reasons, x);
  }

  /** No reason is given twice. */
  lemma {:induction false} EntriesDistinct(
    parse: string -> Parsed, repo: string, d: Distances, entries: seq<RawEntry>, a: Assembly)
    requires a.groups.Keys == d.best.Keys && StepEntries(parse, repo, d, entries, a).Ok? && Distinct(a.reasons)
    ensures Distinct(StepEntries(parse, repo, d, entries, a).value.reasons)
    decreases |entries|
  {
    StepEntriesCons(parse, repo, d, entries, a);
    if entries != [] {
      var m := StepRaw(parse, repo, d, entries[0], a).value;
      StepDistinct(parse, repo, d, entries[0], a);
      hide *;
      EntriesDistinct(parse, repo, d, entries[1..], m);
    }
  }

  lemma StepDistinct(parse: string -> Parsed, repo: string, d: Distances, e: RawEntry, a: Assembly)
    requires a.groups.Keys == d.best.Keys && StepRaw(parse, repo, d, e, a).Ok? && Distinct(a.reasons)
    ensures Distinct(StepRaw(parse, repo, d, e, a).value.reasons)
  {
    AppendDistinct(a.reasons, RepoMismatch);
    AppendDistinct(a.reasons, CorruptGraphData);
    if EndpointOf(parse, e).Some? {
      var reason := EndpointOf(parse, e).value.reason;
      var noted := if reason.Some? then AppendReason(a.reasons, reason.value) else a.reasons;
      if reason.Some? { AppendDistinct(a.reasons, reason.value); }
      AppendDistinct(noted, MissingEntryMetadata);
    }
    hide MakeEvidence, Draft, EndpointOf, Nonblank, AppendReason, Distinct;
  }

  lemma AddedMeans(parse: string -> Parsed, repo: string, d: Distances, f: Finding, start: Assembly, a: Assembly)
    requires Added(parse, repo, d, f.entries, start, a) && start.seen == {} && start.groups.Keys == d.best.Keys
    requires forall id :: id in start.groups ==> start.groups[id] == []
    requires forall id :: id in d.order <==> id in d.best
    requires forall x :: x in start.reasons <==> x in f.reasons
    ensures forall id :: id in d.order ==> id in a.groups
    ensures forall x :: x in a.reasons <==> Given(parse, repo, d, f, x)
    ensures forall v :: v in Flatten(d.order, a.groups) <==> Made(parse, repo, d, f, v)
  {
    hide Gives, Serves, EvidenceOf, Flatten;
    forall v ensures v in Flatten(d.order, a.groups) <==> Made(parse, repo, d, f, v) {
      FlattenHolds(d.order, a.groups, v);
      if i :| 0 <= i < |f.entries| && MakesFor(parse, repo, d, {}, f.entries, i, f.entries[i].capabilityId, v) {
        ServesFits(repo, d, {}, f.entries, i);
        assert v in a.groups[f.entries[i].capabilityId];
      }
    }
  }

  lemma ServesFits(repo: string, d: Distances, seen: set<(string, string)>, entries: seq<RawEntry>, i: nat)
    requires i < |entries| && Serves(repo, d, seen, entries, i)
    ensures entries[i].capabilityId in d.best
  {
  }
}
