/** What a lookup says when it does not find: each reason traced to the stored facts, and the status they give. */
module LookupExact {
  import opened AssemblyExact
  import opened BusinessEntry
  import opened Collections
  import opened LookupAssembly
  import opened RealizationLookup
  import opened Texts
  import opened Wrappers

  // ----- the stored facts behind a reason -----

  /** Some usable relation of the candidate names the capability's own entry. */
  ghost predicate EntryNamed(b: Backend, g: Option<string>, cap: Capability) {
    match b.realizedBy(cap.id)
    case Some(Rows(rows)) => exists row :: row in rows && RowTarget(row, cap.id, g) == Some(cap.entryId)
    case _ => false
  }

  /** The capability has no relation at all, or none that is usable and no generation is asked for. */
  ghost predicate NothingNamed(b: Backend, g: Option<string>, cap: Capability) {
    match b.realizedBy(cap.id)
    case Some(Rows(rows)) => rows == [] || (g.None? && forall row :: row in rows ==> RowTarget(row, cap.id, g).None?)
    case Some(NotIterable) => g.None?
    case None => false
  }

  /** The relations cannot be read through, or one of them is unusable or names something else. */
  ghost predicate RelationsSpoilt(b: Backend, g: Option<string>, cap: Capability) {
    match b.realizedBy(cap.id)
    case Some(Rows(rows)) => exists row :: row in rows && RowTarget(row, cap.id, g) != Some(cap.entryId)
    case Some(NotIterable) => true
    case None => false
  }

  /** The capability stored under the id, whatever its repository and generation. */
  ghost predicate StoredAs(b: Backend, id: string, cap: Capability) {
    match b.node(id)
    case Some(Record(fields)) => CapabilityOf(fields) == Some(cap) && cap.id == id
    case _ => false
  }

  /** Reading the candidate's stored facts gives this reason. */
  ghost predicate Reported(b: Backend, repo: string, g: Option<string>, id: string, x: Reason) {
    var accepted := Accepted(b, repo, g, id);
    match x
    case NoCapabilityMatch => b.node(id) == Some(Absent)
    case NoRealization =>
      accepted.Some? && var cap := accepted.value;
      NothingNamed(b, g, cap) || (EntryNamed(b, g, cap) && b.node(cap.entryId) == Some(Absent))
    case RepoMismatch =>
      || (exists cap :: StoredAs(b, id, cap) && cap.repoId != repo)
      || (accepted.Some? && var cap := accepted.value;
          EntryNamed(b, g, cap) && b.node(cap.entryId).Some? && b.node(cap.entryId).value.Record?
          && var code := b.node(cap.entryId).value.fields;
          && Required(code, "id") == Some(cap.entryId) && Required(code, "name").Some?
          && Required(code, "repoId").Some? && Required(code, "repoId") != Some(repo))
    case CorruptGraphData =>
      || b.node(id) == Some(NotMapping)
      || (b.node(id).Some? && b.node(id).value.Record?
          && ((forall cap :: !StoredAs(b, id, cap))
              || exists cap :: StoredAs(b, id, cap) && cap.repoId == repo && !InGeneration(b.node(id).value.fields, g)))
      || (accepted.Some? && var cap := accepted.value;
          || RelationsSpoilt(b, g, cap)
          || (EntryNamed(b, g, cap) && b.node(cap.entryId).Some?
              && (b.node(cap.entryId).value.NotMapping?
                  || (b.node(cap.entryId).value.Record?
                      && RawFromNodes(cap, b.node(cap.entryId).value.fields, cap.entryId, repo, g).Corrupt?))))
    case _ => false
  }

  // ----- the reasons of the repository pass -----

  function Union(reasons: seq<Reason>, more: set<Reason>): set<Reason> { (set x | x in reasons) + more }

  function EntryReason(b: Backend, repo: string, g: Option<string>, cap: Capability): set<Reason> {
    match b.node(cap.entryId)
    case Some(Absent) => {NoRealization}
    case Some(NotMapping) => {CorruptGraphData}
    case Some(Record(code)) =>
      (match RawFromNodes(cap, code, cap.entryId, repo, g)
       case Corrupt => {CorruptGraphData}
       case WrongRepo => {RepoMismatch}
       case _ => {})
    case None => {}
  }

  function TargetReasons(
    b: Backend, repo: string, g: Option<string>, cap: Capability, targets: seq<string>): set<Reason>
  {
    (if exists t :: t in targets && t != cap.entryId then {CorruptGraphData} else {})
    + (if cap.entryId in targets then EntryReason(b, repo, g, cap) else {})
  }

  lemma AppendUnion(reasons: seq<Reason>, r: Reason)
    ensures Union(AppendReason(reasons, r), {}) == Union(reasons, {r})
  {
  }

  lemma {:induction false} TargetsSay(
    b: Backend, repo: string, g: Option<string>, cap: Capability, targets: seq<string>, f: Finding)
    requires StepTargets(b, repo, g, cap, targets, f).Ok?
    ensures Union(StepTargets(b, repo, g, cap, targets, f).value.reasons, {})
         == Union(f.reasons, TargetReasons(b, repo, g, cap, targets))
    decreases |targets|
  {
    if targets != [] {
      var first, rest := targets[0], targets[1..];
      assert targets == [first] + rest;
      StepTargetsCons(b, repo, g, cap, targets, f);
      var next := StepTarget(b, repo, g, cap, first, f);
      TargetSays(b, repo, g, cap, first, f);
      TargetReasonsCons(b, repo, g, cap, first, rest);
      hide StepTarget, StepTargets, EntryReason, TargetReasons;
      TargetsSay(b, repo, g, cap, rest, next.value);
      assert Union(next.value.reasons, {}) + TargetReasons(b, repo, g, cap, rest)
          == Union(next.value.reasons, TargetReasons(b, repo, g, cap, rest));
    }
  }

  lemma TargetReasonsCons(
    b: Backend, repo: string, g: Option<string>, cap: Capability, first: string, rest: seq<string>)
    ensures TargetReasons(b, repo, g, cap, [first] + rest)
         == (if first == cap.entryId then EntryReason(b, repo, g, cap) else {CorruptGraphData})
            + TargetReasons(b, repo, g, cap, rest)
  {
    hide EntryReason;
    var all := [first] + rest;
    assert first in all && (forall t :: t in all <==> t == first || t in rest);
    if t :| t in rest && t != cap.entryId {
      assert t in all;
    }
  }

  lemma TargetSays(b: Backend, repo: string, g: Option<string>, cap: Capability, target: string, f: Finding)
    requires StepTarget(b, repo, g, cap, target, f).Ok?
    ensures Union(StepTarget(b, repo, g, cap, target, f).value.reasons, {})
         == Union(f.reasons, if target == cap.entryId then EntryReason(b, repo, g, cap) else {CorruptGraphData})
  {
    AppendUnion(f.reasons, CorruptGraphData);
    AppendUnion(f.reasons, NoRealization);
    AppendUnion(f.reasons, RepoMismatch);
    hide AppendReason, RawFromNodes;
  }

  /** The targets of some relations, and whether one of them was unusable. */
  lemma {:induction false} TargetsAre(rows: seq<RelationRow>, id: string, g: Option<string>)
    ensures forall t :: t in Targets(rows, id, g).0 <==> exists row :: row in rows && RowTarget(row, id, g) == Some(t)
    ensures Targets(rows, id, g).1 <==> exists row :: row in rows && RowTarget(row, id, g).None?
  {
    hide RowTarget;
    if rows != [] {
      var front, last := rows[..|rows| - 1], rows[|rows| - 1];
      assert rows == front + [last];
      TargetsAre(front, id, g);
      assert forall row :: row in rows <==> row in front || row == last;
    }
  }

  function CapabilityReasons(b: Backend, repo: string, g: Option<string>, cap: Capability): set<Reason> {
    match b.realizedBy(cap.id)
    case None => {}
    case Some(relations) =>
      var (targets, corrupt) := RelationTargets(relations, cap.id, g);
      (if corrupt then {CorruptGraphData} else {})
      + (if targets != [] then TargetReasons(b, repo, g, cap, targets)
         else if g.None? || !corrupt then {NoRealization} else {})
  }

  lemma CapabilitySays(b: Backend, repo: string, g: Option<string>, cap: Capability, f: Finding)
    requires StepCapability(b, repo, g, cap, f).Ok?
    ensures Union(StepCapability(b, repo, g, cap, f).value.reasons, {})
         == Union(f.reasons, CapabilityReasons(b, repo, g, cap))
  {
    var (targets, corrupt) := RelationTargets(b.realizedBy(cap.id).value, cap.id, g);
    var noted := if corrupt then Note(f, CorruptGraphData) else f;
    AppendUnion(f.reasons, CorruptGraphData);
    AppendUnion(noted.reasons, NoRealization);
    hide AppendReason, RelationTargets, StepTargets, TargetReasons;
    if targets != [] {
      TargetsSay(b, repo, g, cap, targets, noted);
    }
  }

  lemma CandidateSays(b: Backend, repo: string, g: Option<string>, id: string, f: Finding)
    requires StepCandidate(b, repo, g, id, f).Ok?
    ensures forall x :: x in StepCandidate(b, repo, g, id, f).value.reasons
                        <==> x in f.reasons || Reported(b, repo, g, id, x)
  {
    var accepted := Accepted(b, repo, g, id);
    var r := StepCandidate(b, repo, g, id, f).value;
    if accepted.Some? {
      AcceptedStep(b, repo, g, id, f);
      CapabilitySays(b, repo, g, accepted.value, f);
      CapabilityReported(b, repo, g, id, accepted.value);
      forall x ensures x in r.reasons <==> x in f.reasons || Reported(b, repo, g, id, x) {
        assert x in r.reasons <==> x in Union(r.reasons, {});
      }
    } else {
      RefusedReported(b, repo, g, id, f);
    }
  }

  lemma RefusedReported(b: Backend, repo: string, g: Option<string>, id: string, f: Finding)
    requires Accepted(b, repo, g, id).None? && StepCandidate(b, repo, g, id, f).Ok?
    ensures forall x :: x in StepCandidate(b, repo, g, id, f).value.reasons
                        <==> x in f.reasons || Reported(b, repo, g, id, x)
  {
    hide CapabilityOf, InGeneration;
    match b.node(id)
    case Some(Record(fields)) =>
      if CapabilityOf(fields).Some? && CapabilityOf(fields).value.id == id {
        assert StoredAs(b, id, CapabilityOf(fields).value);
      }
    case _ =>
  }

  /** What the targets of a capability's relations say of its rows. */
  lemma RelationsMean(b: Backend, g: Option<string>, cap: Capability)
    requires b.realizedBy(cap.id).Some?
    ensures var (targets, corrupt) := RelationTargets(b.realizedBy(cap.id).value, cap.id, g);
            && (cap.entryId in targets <==> EntryNamed(b, g, cap))
            && (targets == [] && (g.None? || !corrupt) <==> NothingNamed(b, g, cap))
            && (corrupt || (exists t :: t in targets && t != cap.entryId) <==> RelationsSpoilt(b, g, cap))
  {
    match b.realizedBy(cap.id).value
    case NotIterable =>
    case Rows(rows) =>
      TargetsAre(rows, cap.id, g);
      hide RowTarget, Targets;
      var (targets, corrupt) := Targets(rows, cap.id, g);
      assert targets == [] <==> forall t :: t !in targets by {
        assert targets != [] ==> targets[0] in targets;
      }
      assert rows == [] <==> forall row :: row !in rows by {
        assert rows != [] ==> rows[0] in rows;
      }
      forall row | row in rows && RowTarget(row, cap.id, g).Some? ensures RowTarget(row, cap.id, g).value in targets {}
  }

  lemma WrongRepoMeans(cap: Capability, code: Fields, repo: string, g: Option<string>)
    ensures RawFromNodes(cap, code, cap.entryId, repo, g).WrongRepo?
       <==> && Required(code, "id") == Some(cap.entryId) && Required(code, "name").Some?
            && Required(code, "repoId").Some? && Required(code, "repoId") != Some(repo)
  {
    hide Required, OptionalLine, OptionalString, InGeneration;
  }

  /** What the stored entry of a capability gives as a reason. */
  ghost predicate EntryReported(b: Backend, repo: string, g: Option<string>, cap: Capability, x: Reason) {
    match b.node(cap.entryId)
    case Some(Absent) => x == NoRealization
    case Some(NotMapping) => x == CorruptGraphData
    case Some(Record(code)) =>
      || (x == CorruptGraphData && RawFromNodes(cap, code, cap.entryId, repo, g).Corrupt?)
      || (x == RepoMismatch
          && Required(code, "id") == Some(cap.entryId) && Required(code, "name").Some?
          && Required(code, "repoId").Some? && Required(code, "repoId") != Some(repo))
    case None => false
  }

  lemma EntryReasonMeans(b: Backend, repo: string, g: Option<string>, cap: Capability)
    ensures forall x :: x in EntryReason(b, repo, g, cap) <==> EntryReported(b, repo, g, cap, x)
  {
    match b.node(cap.entryId)
    case Some(Record(code)) => WrongRepoMeans(cap, code, repo, g);
    case _ =>
    hide RawFromNodes, Required;
  }

  /** An accepted candidate is reported on by its relations and its entry alone. */
  lemma AcceptedReported(b: Backend, repo: string, g: Option<string>, id: string, cap: Capability)
    requires Accepted(b, repo, g, id) == Some(cap)
    ensures forall x :: Reported(b, repo, g, id, x)
                        <==> || (x == NoRealization && NothingNamed(b, g, cap))
                             || (x == CorruptGraphData && RelationsSpoilt(b, g, cap))
                             || (EntryNamed(b, g, cap) && EntryReported(b, repo, g, cap, x))
  {
    assert cap.id == id && cap.repoId == repo && StoredAs(b, id, cap);
    assert b.node(id).Some? && b.node(id).value.Record? && InGeneration(b.node(id).value.fields, g);
    assert forall c :: StoredAs(b, id, c) ==> c == cap;
    hide CapabilityOf, InGeneration, StoredAs, Accepted, EntryNamed, NothingNamed, RelationsSpoilt;
    hide RawFromNodes, Required;
  }

  lemma CapabilityReported(b: Backend, repo: string, g: Option<string>, id: string, cap: Capability)
    requires Accepted(b, repo, g, id) == Some(cap) && b.realizedBy(cap.id).Some?
    ensures forall x :: x in CapabilityReasons(b, repo, g, cap) <==> Reported(b, repo, g, id, x)
  {
    RelationsMean(b, g, cap);
    EntryReasonMeans(b, repo, g, cap);
    AcceptedReported(b, repo, g, id, cap);
    hide Accepted, RelationTargets, EntryNamed, NothingNamed, RelationsSpoilt, EntryReason, EntryReported, Reported;
  }

  lemma {:induction false} PassSays(b: Backend, repo: string, g: Option<string>, ids: seq<string>, f: Finding)
    requires StepAll(b, repo, g, ids, f).Ok?
    ensures forall x :: x in StepAll(b, repo, g, ids, f).value.reasons
                        <==> x in f.reasons || exists id :: id in ids && Reported(b, repo, g, id, x)
    decreases |ids|
  {
    if ids != [] {
      var next := StepCandidate(b, repo, g, ids[0], f);
      CandidateSays(b, repo, g, ids[0], f);
      assert ids == [ids[0]] + ids[1..];
      hide StepCandidate, Reported;
      PassSays(b, repo, g, ids[1..], next.value);
    }
  }

  // ----- the reasons of the assembly -----

  ghost predicate Unseen(a: Assembly, entries: seq<RawEntry>) {
    forall e, k :: e in entries && k in a.seen ==> e.capabilityId != k.0
  }

  lemma AllServe(repo: string, d: Distances, entries: seq<RawEntry>, a: Assembly, i: nat)
    requires AllFit(repo, d, entries) && OnePerCapability(entries) && Unseen(a, entries) && i < |entries|
    ensures Serves(repo, d, a.seen, entries, i) && !Foreign(repo, entries[i]) && entries[i].capabilityId in d.best
  {
    assert entries[i] in entries;
  }

  lemma EntriesSay(parse: string -> Parsed, repo: string, d: Distances, entries: seq<RawEntry>, a: Assembly)
    requires a.groups.Keys == d.best.Keys && StepEntries(parse, repo, d, entries, a).Ok?
    requires AllFit(repo, d, entries) && OnePerCapability(entries) && Unseen(a, entries)
    ensures forall x :: x in StepEntries(parse, repo, d, entries, a).value.reasons
                        <==> x in a.reasons || exists e :: e in entries && EntryNoted(parse, e, x)
  {
    EntriesAdded(parse, repo, d, entries, a);
    forall i | 0 <= i < |entries|
      ensures forall x :: Gives(parse, repo, d, a.seen, entries, i, x) <==> EntryNoted(parse, entries[i], x)
    {
      AllServe(repo, d, entries, a, i);
      hide Serves, Foreign, EntryNoted;
    }
    hide Gives, EntryNoted, StepEntries, AllFit, OnePerCapability, Unseen, MakesFor;
  }

  // ----- the result -----

  /** The candidate's stored facts, or the metadata of the entry it yields, give this reason. */
  ghost predicate Said(b: Backend, repo: string, g: Option<string>, id: string, x: Reason) {
    || Reported(b, repo, g, id, x)
    || (Yield(b, repo, g, id).Some? && EntryNoted(b.parse, Yield(b, repo, g, id).value, x))
  }

  /** The last step of a lookup that gives a result: its reasons, and whether there is any evidence. */
  lemma FindEnds(b: Backend, repo: string, candidates: seq<Candidate>, generation: Option<string>)
    returns (a: Assembly)
    requires Ready(repo, candidates, generation) && Find(b, repo, candidates, generation).Ok?
    ensures var d, g := Collect(candidates), Normalized(generation);
            && Keyed(d) && (forall id :: id in d.order ==> id in a.groups) && BackendUnavailable !in a.reasons
            && Find(b, repo, candidates, generation) == Finish(d, a)
            && (Flatten(d.order, a.groups) == [] <==> forall id :: id in d.order ==> Yield(b, repo, g, id).None?)
            && forall x :: x in a.reasons <==> exists id :: id in d.order && Said(b, repo, g, id, x)
  {
    hide *;
    var ids, g, d := IdsOf(candidates), Normalized(generation), Collect(candidates);
    FindIs(b, repo, candidates, generation);
    ReadyArguments(repo, candidates, generation);
    LookupGathers(b, repo, ids, generation);
    OrderIs(candidates);
    var f := Lookup(b, repo, ids, generation).value;
    CollectKeyed(candidates);
    GatheredFits(b, repo, g, d, f);
    StartAssembled(b.parse, repo, d, f);
    AssembleIs(b.parse, repo, candidates, f);
    assert [] + f.entries == f.entries;
    AssembleAll(b.parse, repo, d, [], f.reasons != [], f.entries, StartOf(d, f));
    a := StepEntries(b.parse, repo, d, f.entries, StartOf(d, f)).value;
    AssembledMeans(b.parse, repo, d, f, a);
    EvidencesFromEntries(b.parse, repo, d, f, a);
    StartSays(d, f, f.entries);
    EntriesSay(b.parse, repo, d, f.entries, StartOf(d, f));
    LookupSays(b, repo, ids, generation);
    GatheredEntries(b, repo, g, d.order, f);
    SaidOnce(b, repo, g, d.order, f, a);
  }

  lemma CollectKeyed(candidates: seq<Candidate>)
    ensures Keyed(Collect(candidates)) && Distinct(Collect(candidates).order)
  {
    CollectKeys(candidates);
  }

  lemma StartSays(d: Distances, f: Finding, entries: seq<RawEntry>)
    ensures Unseen(StartOf(d, f), entries) && forall x :: x in StartOf(d, f).reasons <==> x in f.reasons
  {
    StableEmpty(f.reasons);
  }

  lemma LookupSays(b: Backend, repo: string, ids: seq<string>, generation: Option<string>)
    requires Lookup(b, repo, ids, generation).Ok?
    ensures forall x :: x in Lookup(b, repo, ids, generation).value.reasons
                        <==> exists id :: id in Dedup(ids) && Reported(b, repo, Normalized(generation), id, x)
  {
    PassSays(b, repo, Normalized(generation), Dedup(ids), Finding([], []));
    hide Reported, StepAll, Dedup, Normalized;
  }

  /** Reported by the pass or noted for an entry, candidate by candidate. */
  lemma SaidOnce(b: Backend, repo: string, g: Option<string>, order: seq<string>, f: Finding, a: Assembly)
    requires f.entries == EntriesOf(b, repo, g, order)
    requires forall x :: x in f.reasons <==> exists id :: id in order && Reported(b, repo, g, id, x)
    requires forall x :: x in a.reasons <==> x in f.reasons || exists e :: e in f.entries && EntryNoted(b.parse, e, x)
    ensures forall x :: x in a.reasons <==> exists id :: id in order && Said(b, repo, g, id, x)
    ensures f.entries == [] <==> forall id :: id in order ==> Yield(b, repo, g, id).None?
  {
    EntriesFit(b, repo, g, order);
    forall id | id in order && Yield(b, repo, g, id).Some? ensures Yield(b, repo, g, id).value in f.entries {
      YieldId(b, repo, g, id);
    }
    hide Reported, EntryNoted, Yield, EntriesOf, EntryFits;
    assert f.entries != [] ==> f.entries[0] in f.entries;
  }

  /** Nothing is stored under the candidate's id. */
  ghost predicate Missing(b: Backend, id: string) { b.node(id) == Some(Absent) }

  /**
   The candidate is accepted and its relations are clean, but there are none, or the entry that they
   all name is not stored.
   */
  ghost predicate Unrealized(b: Backend, repo: string, g: Option<string>, id: string) {
    var cap := Accepted(b, repo, g, id);
    cap.Some? && match b.realizedBy(id)
                 case Some(Rows(rows)) =>
                   && (forall row :: row in rows ==> RowTarget(row, id, g) == Some(cap.value.entryId))
                   && (rows == [] || b.node(cap.value.entryId) == Some(Absent))
                 case _ => false
  }

  /** What was missed yields nothing and is reported as just that. */
  lemma MissSays(b: Backend, repo: string, g: Option<string>, id: string)
    requires Missing(b, id) || Unrealized(b, repo, g, id)
    ensures Yield(b, repo, g, id).None?
    ensures forall x :: Said(b, repo, g, id, x) <==> x == if Missing(b, id) then NoCapabilityMatch else NoRealization
  {
    if Missing(b, id) {
      hide Reported;
      MissingSays(b, repo, g, id);
    } else {
      var cap := Accepted(b, repo, g, id).value;
      assert b.node(id) != Some(Absent);
      UnrealizedYields(b, repo, g, id, cap);
      UnrealizedReported(b, repo, g, id, cap);
      hide Yield, Reported, Unrealized, Accepted, EntryNoted;
    }
  }

  lemma MissingSays(b: Backend, repo: string, g: Option<string>, id: string)
    requires Missing(b, id)
    ensures Yield(b, repo, g, id).None? && forall x :: Reported(b, repo, g, id, x) <==> x == NoCapabilityMatch
  {
    hide RawFromNodes, EntryNamed, NothingNamed, RelationsSpoilt;
  }

  lemma UnrealizedYields(b: Backend, repo: string, g: Option<string>, id: string, cap: Capability)
    requires Accepted(b, repo, g, id) == Some(cap) && Unrealized(b, repo, g, id)
    ensures Yield(b, repo, g, id).None?
  {
    EntryOfCandidate(b, repo, g, id);
    RelationsMean(b, g, cap);
    hide Accepted, RawFromNodes, RowTarget, Yield, RelationTargets, FailureOf, NothingNamed, RelationsSpoilt;
  }

  lemma UnrealizedReported(b: Backend, repo: string, g: Option<string>, id: string, cap: Capability)
    requires Accepted(b, repo, g, id) == Some(cap) && Unrealized(b, repo, g, id)
    ensures forall x :: Reported(b, repo, g, id, x) <==> x == NoRealization
  {
    AcceptedReported(b, repo, g, id, cap);
    assert cap.id == id;
    hide Accepted, RawFromNodes, RowTarget, Reported;
    var rows := b.realizedBy(id).value.rows;
    assert rows != [] ==> rows[0] in rows;
  }

  /** A candidate whose reads answer and that was not missed yields an entry or is reported for something else. */
  lemma OtherSays(b: Backend, repo: string, g: Option<string>, id: string)
    requires !Missing(b, id) && !Unrealized(b, repo, g, id)
    requires ReadsAnswer(b, repo, g, id) && LinesConvert(b, repo, g, id) && Yield(b, repo, g, id).None?
    ensures Said(b, repo, g, id, CorruptGraphData) || Said(b, repo, g, id, RepoMismatch)
  {
    if Accepted(b, repo, g, id).Some? {
      AcceptedOther(b, repo, g, id, Accepted(b, repo, g, id).value);
    } else {
      RefusedOther(b, repo, g, id);
    }
  }

  lemma RefusedOther(b: Backend, repo: string, g: Option<string>, id: string)
    requires !Missing(b, id) && b.node(id).Some? && Accepted(b, repo, g, id).None?
    ensures Said(b, repo, g, id, CorruptGraphData) || Said(b, repo, g, id, RepoMismatch)
  {
    hide CapabilityOf, InGeneration;
    match b.node(id)
    case Some(Record(fields)) =>
      if CapabilityOf(fields).Some? && CapabilityOf(fields).value.id == id {
        assert StoredAs(b, id, CapabilityOf(fields).value);
      }
    case _ =>
  }

  lemma AcceptedOther(b: Backend, repo: string, g: Option<string>, id: string, cap: Capability)
    requires Accepted(b, repo, g, id) == Some(cap) && !Unrealized(b, repo, g, id)
    requires ReadsAnswer(b, repo, g, id) && LinesConvert(b, repo, g, id) && Yield(b, repo, g, id).None?
    ensures Said(b, repo, g, id, CorruptGraphData) || Said(b, repo, g, id, RepoMismatch)
  {
    AcceptedReported(b, repo, g, id, cap);
    EntryOfCandidate(b, repo, g, id);
    RelationsMean(b, g, cap);
    EntryReasonMeans(b, repo, g, cap);
    assert cap.id == id;
    hide Accepted, RawFromNodes, RowTarget, Reported, RelationTargets, LinesConvert, Yield, EntryReported;
  }

  /** Every candidate gives an entry or a reason. */
  lemma NeverSilent(b: Backend, repo: string, g: Option<string>, id: string)
    requires ReadsAnswer(b, repo, g, id) && LinesConvert(b, repo, g, id) && Yield(b, repo, g, id).None?
    ensures exists x :: Said(b, repo, g, id, x)
  {
    if Missing(b, id) || Unrealized(b, repo, g, id) {
      MissSays(b, repo, g, id);
      assert Said(b, repo, g, id, NoCapabilityMatch) || Said(b, repo, g, id, NoRealization);
    } else {
      OtherSays(b, repo, g, id);
    }
    hide *;
  }

  lemma FinishSays(d: Distances, a: Assembly)
    requires (forall id :: id in d.order ==> id in a.groups) && BackendUnavailable !in a.reasons
    requires Flatten(d.order, a.groups) == [] && a.reasons == [] ==> d.order == []
    requires d.order == [] ==> a.reasons == []
    ensures var r := Finish(d, a);
            && r.Ok?
            && (forall x :: x in r.value.reasons <==> x in a.reasons || (d.order == [] && x == NoCapabilityMatch))
            && (r.value.status.NotFound? <==> Flatten(d.order, a.groups) == [] && OnlyMisses(r.value.reasons))
            && !r.value.status.Unavailable?
  {
    assert d.order == [] ==> Flatten(d.order, a.groups) == [];
    FinishValid(d, a);
    hide Flatten;
  }

  /** What a result says, id by id. */
  lemma ResultSays(b: Backend, repo: string, candidates: seq<Candidate>, generation: Option<string>)
    requires Ready(repo, candidates, generation) && Find(b, repo, candidates, generation).Ok?
    ensures var r, g := Find(b, repo, candidates, generation).value, Normalized(generation);
            var order := Collect(candidates).order;
            && (forall id :: id in order ==> ReadsAnswer(b, repo, g, id) && LinesConvert(b, repo, g, id))
            && (forall x :: x in r.reasons
                  <==> (order == [] && x == NoCapabilityMatch) || exists id :: id in order && Said(b, repo, g, id, x))
            && (r.status.NotFound?
                <==> OnlyMisses(r.reasons) && forall id :: id in order ==> Yield(b, repo, g, id).None?)
            && !r.status.Unavailable?
  {
    hide *;
    var g, d := Normalized(generation), Collect(candidates);
    var a := FindEnds(b, repo, candidates, generation);
    FindAnswersExactly(b, repo, candidates, generation);
    OrderOfCandidates(candidates);
    forall id | id in d.order ensures ReadsAnswer(b, repo, g, id) && LinesConvert(b, repo, g, id) {
      var c :| c in candidates && c.capabilityId == id;
      AnsweredReads(b, repo, generation, c.capabilityId);
    }
    if d.order != [] && Flatten(d.order, a.groups) == [] {
      assert d.order[0] in d.order;
      NeverSilent(b, repo, g, d.order[0]);
      var x :| Said(b, repo, g, d.order[0], x);
      assert x in a.reasons;
    }
    assert a.reasons != [] ==> a.reasons[0] in a.reasons;
    FinishSays(d, a);
  }

  lemma AnsweredReads(b: Backend, repo: string, generation: Option<string>, id: string)
    requires Answered(b, repo, generation, id)
    ensures ReadsAnswer(b, repo, Normalized(generation), id) && LinesConvert(b, repo, Normalized(generation), id)
  {
    hide ReadsAnswer, LinesConvert, MetadataParses, Normalized;
  }

  /**
   The reasons of a result are those that some candidate's stored facts give, apart from the one given
   where there was no candidate.
   */
  lemma ReasonsExactly(b: Backend, repo: string, candidates: seq<Candidate>, generation: Option<string>)
    requires Ready(repo, candidates, generation) && Find(b, repo, candidates, generation).Ok?
    ensures var r, g := Find(b, repo, candidates, generation).value, Normalized(generation);
            forall x :: x in r.reasons
              <==> || (candidates == [] && x == NoCapabilityMatch)
                   || exists c :: c in candidates && Said(b, repo, g, c.capabilityId, x)
  {
    hide *;
    ResultSays(b, repo, candidates, generation);
    OrderOfCandidates(candidates);
    forall c | c in candidates ensures c.capabilityId in Collect(candidates).order {}
  }

  /**
   A lookup that gives a result misses exactly when every candidate is missing or unrealized, and is
   degraded exactly when neither that holds nor every candidate is clean.
   */
  lemma StatusExactly(b: Backend, repo: string, candidates: seq<Candidate>, generation: Option<string>)
    requires Ready(repo, candidates, generation) && Find(b, repo, candidates, generation).Ok?
    ensures var r, g := Find(b, repo, candidates, generation).value, Normalized(generation);
            var missed := forall c :: c in candidates ==>
                            Missing(b, c.capabilityId) || Unrealized(b, repo, g, c.capabilityId);
            && (r.status.NotFound? <==> missed)
            && (r.status.Degraded? <==>
                  !missed && exists c :: c in candidates && !Clean(b, repo, generation, c.capabilityId))
            && !r.status.Unavailable?
  {
    hide *;
    ResultSays(b, repo, candidates, generation);
    var r, g, order := Find(b, repo, candidates, generation).value, Normalized(generation), Collect(candidates).order;
    OrderOfCandidates(candidates);
    forall c | c in candidates ensures c.capabilityId in order {}
    MissesMean(r.reasons);
    FoundExactly(b, repo, candidates, generation);
    if forall id :: id in order ==> Missing(b, id) || Unrealized(b, repo, g, id) {
      forall id | id in order
        ensures Yield(b, repo, g, id).None?
        ensures forall x :: Said(b, repo, g, id, x) ==> x == NoCapabilityMatch || x == NoRealization
      {
        MissSays(b, repo, g, id);
      }
      assert r.status.NotFound?;
    } else {
      var id :| id in order && !Missing(b, id) && !Unrealized(b, repo, g, id);
      if Yield(b, repo, g, id).None? {
        OtherSays(b, repo, g, id);
        assert CorruptGraphData in r.reasons || RepoMismatch in r.reasons;
      }
      assert !r.status.NotFound?;
    }
  }

  lemma MissesMean(reasons: seq<Reason>)
    ensures OnlyMisses(reasons) <==> forall x :: x in reasons ==> x == NoCapabilityMatch || x == NoRealization
  {
  }

  // ----- the evidences -----

  /** The evidence shows the entry as it was read, with the endpoint of its metadata. */
  ghost predicate Carries(parse: string -> Parsed, v: Evidence, e: RawEntry) {
    && (v.capabilityId, v.capabilityName, v.capabilityDomain) == (e.capabilityId, e.capabilityName, e.capabilityDomain)
    && (v.codeEntityId, v.entryName, v.entryCategory) == (e.codeEntityId, e.entryName, e.entryCategory)
    && (v.filePath, v.startLine, v.endLine) == (e.filePath, e.startLine, e.endLine)
    && EndpointOf(parse, e).Some? && v.endpoint == EndpointOf(parse, e).value.pairs
  }

  lemma EvidenceCarries(parse: string -> Parsed, repo: string, d: Distances, e: RawEntry)
    requires e.capabilityId in d.best && EvidenceOf(parse, repo, d, e).Some?
    ensures Carries(parse, EvidenceOf(parse, repo, d, e).value, e)
  {
    EndpointAccepted(parse, e.entryCategory, e.entryMetadata);
    hide Nonblank, NormalizeEndpoint, EndpointFromMetadata;
  }

  /** The flattened groups hold just the evidences of the entries. */
  lemma FlattenedEntries(parse: string -> Parsed, repo: string, d: Distances, f: Finding, a: Assembly)
    requires Assembled(parse, repo, d, f.entries, f.reasons != [], a) && Nonblank(repo) && Keyed(d)
    requires AllFit(repo, d, f.entries) && forall id :: id in d.order ==> id in a.groups
    ensures forall v :: v in Flatten(d.order, a.groups) ==> exists e :: e in f.entries && Carries(parse, v, e)
    ensures forall e :: e in f.entries ==>
              exists v :: v in Flatten(d.order, a.groups) && v.capabilityId == e.capabilityId
  {
    hide *;
    AssembledSingle(parse, repo, d, f.entries, f.reasons != [], a);
    GroupsSingle(repo, d, a.groups);
    forall v | v in Flatten(d.order, a.groups) ensures exists e :: e in f.entries && Carries(parse, v, e) {
      FlattenMember(d.order, a.groups, v);
      KeyedBest(d, v.capabilityId);
      var e := GroupIs(parse, repo, d, f.entries, f.reasons != [], a, v.capabilityId);
      EvidenceCarries(parse, repo, d, e.value);
    }
    forall e | e in f.entries ensures exists v :: v in Flatten(d.order, a.groups) && v.capabilityId == e.capabilityId {
      EntryAllFit(repo, d, f.entries, e);
      KeyedBest(d, e.capabilityId);
      SingleMember(d.order, a.groups, e.capabilityId);
      var v := a.groups[e.capabilityId][0];
      FlattenMember(d.order, a.groups, v);
    }
  }

  lemma KeyedBest(d: Distances, id: string)
    requires Keyed(d)
    ensures id in d.best <==> id in d.order
  {
  }

  lemma SingleMember(order: seq<string>, groups: map<string, seq<Evidence>>, id: string)
    requires SingleGroups(order, groups) && id in order && id in groups && groups[id] != []
    ensures groups[id][0] in groups[id] && groups[id][0].capabilityId == id
  {
  }

  /** The evidences of a result show the entries that the candidates yield, each yielding candidate by one. */
  lemma EvidencesExact(b: Backend, repo: string, candidates: seq<Candidate>, generation: Option<string>)
    requires Ready(repo, candidates, generation) && Find(b, repo, candidates, generation).Ok?
    ensures var r, g := Find(b, repo, candidates, generation).value, Normalized(generation);
            && (forall v :: v in r.evidences ==>
                  exists c :: c in candidates && Yield(b, repo, g, c.capabilityId).Some?
                              && Carries(b.parse, v, Yield(b, repo, g, c.capabilityId).value))
            && (forall c :: c in candidates && Yield(b, repo, g, c.capabilityId).Some? ==>
                  exists v :: v in r.evidences && v.capabilityId == c.capabilityId)
  {
    hide *;
    var g, d := Normalized(generation), Collect(candidates);
    FindAnswersExactly(b, repo, candidates, generation);
    AnsweredMeans(b, repo, candidates, generation);
    var f, a := FindCases(b, repo, candidates, generation);
    StateMeans(b, repo, candidates, generation, f, a);
    FinishValid(d, a);
    FlattenedEntries(b.parse, repo, d, f, a);
    GatheredEntries(b, repo, g, d.order, f);
    EntriesFit(b, repo, g, d.order);
    OrderOfCandidates(candidates);
    forall c | c in candidates && Yield(b, repo, g, c.capabilityId).Some?
      ensures Yield(b, repo, g, c.capabilityId).value in f.entries
      ensures Yield(b, repo, g, c.capabilityId).value.capabilityId == c.capabilityId
    {
      YieldId(b, repo, g, c.capabilityId);
      assert c.capabilityId in d.order;
    }
  }
}
