/** Candidate capabilities looked up in one repository's stored facts. */
module RealizationLookup {
  import opened BusinessEntry
  import opened Collections
  import opened Texts
  import opened Wrappers

  /** What a node read gives. */
  datatype Stored = Absent | NotMapping | Record(fields: Fields)

  datatype RelationRow = BadRow | Row(fields: Fields, properties: Option<Fields>)

  datatype Relations = NotIterable | Rows(rows: seq<RelationRow>)

  /** The backend reads, where `None` is a read that raises, and the reader of metadata texts. */
  datatype Backend = Backend(
    node: string -> Option<Stored>, realizedBy: string -> Option<Relations>, parse: string -> Parsed)

  /** How a lookup ends without a result: the last two are exceptions of the interpreter that nothing catches. */
  datatype Failure = InvalidArgument | BackendDown | LineTooLong | ParserRaised

  /** `entries` and `reasons` as they grow. */
  datatype Finding = Finding(entries: seq<RawEntry>, reasons: seq<Reason>)

  function AppendReason(reasons: seq<Reason>, r: Reason): seq<Reason> {
    if r in reasons then reasons else reasons + [r]
  }

  function Note(f: Finding, r: Reason): Finding { f.(reasons := AppendReason(f.reasons, r)) }

  function Required(fields: Fields, key: string): Option<string> {
    if key in fields && fields[key].Str? && Nonblank(fields[key].text) then Some(fields[key].text) else None
  }

  datatype Capability = Capability(id: string, name: string, domain: string, repoId: string, entryId: string)

  function CapabilityOf(f: Fields): Option<Capability> {
    var id, name, domain := Required(f, "id"), Required(f, "name"), Required(f, "businessDomain");
    var repoId, entryId := Required(f, "repoId"), Required(f, "entryCodeEntityId");
    if id.None? || name.None? || domain.None? || repoId.None? || entryId.None? then None
    else Some(Capability(id.value, name.value, domain.value, repoId.value, entryId.value))
  }

  /** No generation is asked for, or the record carries the one asked for. */
  predicate InGeneration(fields: Fields, generation: Option<string>) {
    generation.Some? ==> "generationId" in fields && fields["generationId"] == Str(generation.value)
  }

  // ----- relations -----

  /** The target a row realizes the capability by, unless the row is corrupt. */
  function RowTarget(row: RelationRow, capabilityId: string, generation: Option<string>): Option<string> {
    if row.BadRow? then None
    else if !("source_id" in row.fields && row.fields["source_id"] == Str(capabilityId)) then None
    else if !("rel_type" in row.fields && row.fields["rel_type"] == Str("REALIZED_BY")) then None
    else if Required(row.fields, "target_id").None? then None
    else if generation.Some? && (row.properties.None? || !InGeneration(row.properties.value, generation)) then None
    else Required(row.fields, "target_id")
  }

  /** The distinct targets in order, and whether any row was corrupt. */
  function Targets(rows: seq<RelationRow>, capabilityId: string, generation: Option<string>): (seq<string>, bool) {
    if rows == [] then ([], false)
    else
      var (targets, corrupt) := Targets(rows[..|rows| - 1], capabilityId, generation);
      var target := RowTarget(rows[|rows| - 1], capabilityId, generation);
      if target.None? then (targets, true)
      else if target.value in targets then (targets, corrupt)
      else (targets + [target.value], corrupt)
  }

  function RelationTargets(r: Relations, capabilityId: string, generation: Option<string>): (seq<string>, bool) {
    if r.NotIterable? then ([], true) else Targets(r.rows, capabilityId, generation)
  }

  method RealizationTargetIds(r: Relations, capabilityId: string, generation: Option<string>)
    returns (targets: seq<string>, corrupt: bool)
    ensures (targets, corrupt) == RelationTargets(r, capabilityId, generation)
  {
    targets, corrupt := [], false;
    if r.NotIterable? {
      return [], true;
    }
    for i := 0 to |r.rows|
      invariant (targets, corrupt) == Targets(r.rows[..i], capabilityId, generation)
    {
      assert r.rows[..i + 1][..i] == r.rows[..i];
      var target := RowTarget(r.rows[i], capabilityId, generation);
      if target.None? {
        corrupt := true;
      } else if target.value !in targets {
        targets := targets + [target.value];
      }
    }
    assert r.rows[..|r.rows|] == r.rows;
  }

  // ----- code entities -----

  /** `Unreadable` stands for the exception of a line text that does not convert. */
  datatype RawOutcome = Corrupt | WrongRepo | Unreadable | Entry(raw: RawEntry)

  /** `(valid, value)` of an optional string field. */
  function OptionalString(f: Fields, key: string, rejectBlank: bool): (bool, Option<string>) {
    if key !in f then (true, None)
    else if !f[key].Str? || (rejectBlank && !Nonblank(f[key].text)) then (false, None)
    else (true, Some(f[key].text))
  }

  predicate IsDecimal(s: string) { s != "" && forall i :: 0 <= i < |s| ==> '0' <= s[i] <= '9' }

  function ToNat(s: string): nat
    requires forall i :: 0 <= i < |s| ==> '0' <= s[i] <= '9'
  {
    if s == "" then 0 else ToNat(s[..|s| - 1]) * 10 + (s[|s| - 1] as int - '0' as int)
  }

  /** The longest digit string that the interpreter converts to an integer. */
  const MAX_DIGITS: nat := 4300

  datatype Line = Usable(number: Option<int>) | Unusable | Unconvertible

  function OptionalLine(f: Fields, key: string): Line {
    if key !in f then Usable(None)
    else match f[key]
      case Int(n) => if n > 0 then Usable(Some(n)) else Unusable
      case Str(s) => LineOf(Strip(s))
      case Bool(_) => Unusable
      case Other => Unusable
  }

  function LineOf(text: string): Line {
    if !IsDecimal(text) then Unusable
    else if |text| > MAX_DIGITS then Unconvertible
    else if ToNat(text) > 0 then Usable(Some(ToNat(text)))
    else Unusable
  }

  function RawFromNodes(
    cap: Capability, code: Fields, target: string, repo: string, generation: Option<string>): RawOutcome
  {
    var id, name, repoId := Required(code, "id"), Required(code, "name"), Required(code, "repoId");
    if id.None? || name.None? || repoId.None? || id.value != target then Corrupt
    else if repoId.value != repo then WrongRepo
    else if !InGeneration(code, generation) then Corrupt
    else
      var (categoryOk, category) := OptionalString(code, "entryCategory", false);
      var (pathOk, path) := OptionalString(code, "filePath", true);
      var (metadataOk, metadata) := OptionalString(code, "entryMetadata", false);
      var start, end := OptionalLine(code, "startLine"), OptionalLine(code, "endLine");
      if start.Unconvertible? || end.Unconvertible? then Unreadable
      else if !(categoryOk && pathOk && metadataOk && start.Usable? && end.Usable?) then Corrupt
      else if start.number.Some? && end.number.Some? && end.number.value < start.number.value then Corrupt
      else Entry(RawEntry(cap.id, cap.name, cap.domain, cap.repoId, id.value, repoId.value, name.value,
                          category, path, start.number, end.number, metadata, generation))
  }

  // ----- the pass over candidates -----

  function StepTarget(b: Backend, repo: string, g: Option<string>, cap: Capability, target: string, f: Finding)
    : Result<Finding, Failure>
  {
    if cap.entryId != target then Ok(Note(f, CorruptGraphData))
    else match b.node(target)
      case None => Err(BackendDown)
      case Some(Absent) => Ok(Note(f, NoRealization))
      case Some(NotMapping) => Ok(Note(f, CorruptGraphData))
      case Some(Record(code)) =>
        match RawFromNodes(cap, code, target, repo, g)
        case Corrupt => Ok(Note(f, CorruptGraphData))
        case WrongRepo => Ok(Note(f, RepoMismatch))
        case Unreadable => Err(LineTooLong)
        case Entry(raw) => Ok(f.(entries := f.entries + [raw]))
  }

  function StepTargets(b: Backend, repo: string, g: Option<string>, cap: Capability, targets: seq<string>, f: Finding)
    : Result<Finding, Failure>
  {
    if targets == [] then Ok(f)
    else
      var next := StepTarget(b, repo, g, cap, targets[0], f);
      if next.Err? then next else StepTargets(b, repo, g, cap, targets[1..], next.value)
  }

  function StepCapability(b: Backend, repo: string, g: Option<string>, cap: Capability, f: Finding)
    : Result<Finding, Failure>
  {
    match b.realizedBy(cap.id)
    case None => Err(BackendDown)
    case Some(relations) =>
      var (targets, corrupt) := RelationTargets(relations, cap.id, g);
      var noted := if corrupt then Note(f, CorruptGraphData) else f;
      if targets != [] then StepTargets(b, repo, g, cap, targets, noted)
      else if g.None? || !corrupt then Ok(Note(noted, NoRealization))
      else Ok(noted)
  }

  function StepCandidate(b: Backend, repo: string, g: Option<string>, id: string, f: Finding)
    : Result<Finding, Failure>
  {
    match b.node(id)
    case None => Err(BackendDown)
    case Some(Absent) => Ok(Note(f, NoCapabilityMatch))
    case Some(NotMapping) => Ok(Note(f, CorruptGraphData))
    case Some(Record(fields)) =>
      var cap := CapabilityOf(fields);
      if cap.None? || cap.value.id != id then Ok(Note(f, CorruptGraphData))
      else if cap.value.repoId != repo then Ok(Note(f, RepoMismatch))
      else if !InGeneration(fields, g) then Ok(Note(f, CorruptGraphData))
      else StepCapability(b, repo, g, cap.value, f)
  }

  function StepAll(b: Backend, repo: string, g: Option<string>, ids: seq<string>, f: Finding)
    : Result<Finding, Failure>
  {
    if ids == [] then Ok(f)
    else
      var next := StepCandidate(b, repo, g, ids[0], f);
      if next.Err? then next else StepAll(b, repo, g, ids[1..], next.value)
  }

  /** The ids in order of first occurrence. */
  function Dedup(ids: seq<string>): (r: seq<string>)
    ensures Distinct(r) && forall x :: x in r <==> x in ids
  {
    if ids == [] then []
    else
      var front, last := ids[..|ids| - 1], ids[|ids| - 1];
      assert ids == front + [last];
      if last in Dedup(front) then Dedup(front) else Dedup(front) + [last]
  }

  /** The ids keep the order in which they first occur. */
  lemma {:induction false} DedupPrefix(ids: seq<string>, i: nat)
    requires i <= |ids|
    ensures Dedup(ids[..i]) <= Dedup(ids)
  {
    if i < |ids| {
      var front := ids[..|ids| - 1];
      assert front[..i] == ids[..i];
      DedupPrefix(front, i);
    } else {
      assert ids[..i] == ids;
    }
  }

  function Normalized(generation: Option<string>): Option<string> {
    if generation.Some? then Some(Strip(generation.value)) else None
  }

  predicate ArgumentsOk(repo: string, ids: seq<string>, generation: Option<string>) {
    Nonblank(repo) && (forall id :: id in ids ==> Nonblank(id)) && (generation.Some? ==> Nonblank(generation.value))
  }

  function Lookup(b: Backend, repo: string, ids: seq<string>, generation: Option<string>): Result<Finding, Failure> {
    if !ArgumentsOk(repo, ids, generation) then Err(InvalidArgument)
    else StepAll(b, repo, Normalized(generation), Dedup(ids), Finding([], []))
  }

  method FindRealizations(b: Backend, repo: string, ids: seq<string>, generation: Option<string>)
    returns (r: Result<Finding, Failure>)
    ensures r == Lookup(b, repo, ids, generation)
  {
    if !ArgumentsOk(repo, ids, generation) {
      return Err(InvalidArgument);
    }
    var candidates := [];
    for i := 0 to |ids|
      invariant candidates == Dedup(ids[..i])
    {
      assert ids[..i + 1][..i] == ids[..i];
      if ids[i] !in candidates {
        candidates := candidates + [ids[i]];
      }
    }
    assert ids[..|ids|] == ids;
    var g := Normalized(generation);
    var finding := Finding([], []);
    for i := 0 to |candidates|
      invariant StepAll(b, repo, g, candidates[i..], finding) == Lookup(b, repo, ids, generation)
    {
      assert candidates[i..][0] == candidates[i] && candidates[i..][1..] == candidates[i + 1..];
      r := InspectCandidate(b, repo, g, candidates[i], finding);
      if r.Err? {
        return;
      }
      finding := r.value;
    }
    r := Ok(finding);
  }

  method InspectCandidate(b: Backend, repo: string, g: Option<string>, id: string, f: Finding)
    returns (r: Result<Finding, Failure>)
    ensures r == StepCandidate(b, repo, g, id, f)
  {
    hide StepTargets, StepTarget, RelationTargets, CapabilityOf;
    var stored := b.node(id);
    if stored.None? {
      return Err(BackendDown);
    }
    if stored.value.Absent? {
      return Ok(Note(f, NoCapabilityMatch));
    }
    if stored.value.NotMapping? {
      return Ok(Note(f, CorruptGraphData));
    }
    var capability := CapabilityOf(stored.value.fields);
    if capability.None? || capability.value.id != id {
      return Ok(Note(f, CorruptGraphData));
    }
    var cap := capability.value;
    if cap.repoId != repo {
      return Ok(Note(f, RepoMismatch));
    }
    if !InGeneration(stored.value.fields, g) {
      return Ok(Note(f, CorruptGraphData));
    }
    var relations := b.realizedBy(id);
    if relations.None? {
      return Err(BackendDown);
    }
    var targets, corrupt := RealizationTargetIds(relations.value, id, g);
    var finding := f;
    if corrupt {
      finding := Note(finding, CorruptGraphData);
    }
    if targets == [] {
      if g.None? || !corrupt {
        finding := Note(finding, NoRealization);
      }
      return Ok(finding);
    }
    r := InspectTargets(b, repo, g, cap, targets, finding);
  }

  method InspectTargets(b: Backend, repo: string, g: Option<string>, cap: Capability, targets: seq<string>, f: Finding)
    returns (r: Result<Finding, Failure>)
    ensures r == StepTargets(b, repo, g, cap, targets, f)
  {
    var finding := f;
    for i := 0 to |targets|
      invariant StepTargets(b, repo, g, cap, targets[i..], finding) == StepTargets(b, repo, g, cap, targets, f)
    {
      assert targets[i..][0] == targets[i] && targets[i..][1..] == targets[i + 1..];
      var next := StepTarget(b, repo, g, cap, targets[i], finding);
      if next.Err? {
        return next;
      }
      finding := next.value;
    }
    r := Ok(finding);
  }

  // ----- what a candidate stands for in the stored facts -----

  /** The capability a candidate is accepted as: well-formed, of its id, in this repository and generation. */
  function Accepted(b: Backend, repo: string, g: Option<string>, id: string): Option<Capability> {
    match b.node(id)
    case Some(Record(fields)) =>
      var cap := CapabilityOf(fields);
      if cap.Some? && cap.value.id == id && cap.value.repoId == repo && InGeneration(fields, g) then cap else None
    case _ => None
  }

  /** The capability's own entry is among its targets. */
  predicate NamesEntry(b: Backend, g: Option<string>, cap: Capability) {
    b.realizedBy(cap.id).Some? && cap.entryId in RelationTargets(b.realizedBy(cap.id).value, cap.id, g).0
  }

  /** The stored record of the code entity that a candidate leads to. */
  function CodeOf(b: Backend, repo: string, g: Option<string>, id: string): Option<Fields> {
    var cap := Accepted(b, repo, g, id);
    if cap.Some? && NamesEntry(b, g, cap.value) then
      match b.node(cap.value.entryId)
      case Some(Record(code)) => Some(code)
      case _ => None
    else None
  }

  /** Every read made for the candidate is answered. */
  predicate ReadsAnswer(b: Backend, repo: string, g: Option<string>, id: string) {
    && b.node(id).Some?
    && var cap := Accepted(b, repo, g, id);
       cap.Some? ==> && b.realizedBy(cap.value.id).Some?
                     && (NamesEntry(b, g, cap.value) ==> b.node(cap.value.entryId).Some?)
  }

  /** The field holds a decimal text with more digits than the interpreter converts. */
  predicate Overlong(code: Fields, key: string) {
    key in code && code[key].Str? && IsDecimal(Strip(code[key].text)) && |Strip(code[key].text)| > MAX_DIGITS
  }

  /** The record is the code entity asked for, named, in this repository and generation. */
  predicate Located(code: Fields, target: string, repo: string, g: Option<string>) {
    && Required(code, "id") == Some(target) && Required(code, "name").Some? && Required(code, "repoId") == Some(repo)
    && InGeneration(code, g)
  }

  /** No code entity reached in this repository and generation has a line text over the limit. */
  predicate LinesConvert(b: Backend, repo: string, g: Option<string>, id: string) {
    var code := CodeOf(b, repo, g, id);
    code.Some? && Located(code.value, Accepted(b, repo, g, id).value.entryId, repo, g) ==>
      !Overlong(code.value, "startLine") && !Overlong(code.value, "endLine")
  }

  /** The entry that the candidate yields. */
  function Yield(b: Backend, repo: string, g: Option<string>, id: string): Option<RawEntry> {
    var code := CodeOf(b, repo, g, id);
    if code.None? then None
    else
      var cap := Accepted(b, repo, g, id).value;
      match RawFromNodes(cap, code.value, cap.entryId, repo, g)
      case Entry(raw) => Some(raw)
      case _ => None
  }

  /** The rows name only the capability's own entry, at least once, and none is corrupt. */
  predicate RowsClean(r: Relations, cap: Capability, g: Option<string>) {
    r.Rows? && r.rows != [] && forall row :: row in r.rows ==> RowTarget(row, cap.id, g) == Some(cap.entryId)
  }

  /** The candidate yields an entry and its relations name nothing else. */
  predicate Resolves(b: Backend, repo: string, g: Option<string>, id: string) {
    && Yield(b, repo, g, id).Some?
    && var cap := Accepted(b, repo, g, id).value; RowsClean(b.realizedBy(cap.id).value, cap, g)
  }

  // ----- what the pass guarantees -----

  /** An entry fit for assembly: accepted by its constructor, of this repository and capability. */
  ghost predicate EntryFits(repo: string, id: string, e: RawEntry) {
    ValidRaw(e) && e.capabilityId == id && e.capabilityRepoId == repo && e.codeEntityRepoId == repo
  }

  /** What a capability has passed that reaches its relations. */
  ghost predicate CapabilityOk(cap: Capability, repo: string) {
    && Nonblank(cap.id) && Nonblank(cap.name) && Nonblank(cap.domain) && Nonblank(cap.repoId) && cap.repoId == repo
  }

  lemma AcceptedOk(b: Backend, repo: string, g: Option<string>, id: string)
    ensures var cap := Accepted(b, repo, g, id); cap.Some? ==> CapabilityOk(cap.value, repo) && cap.value.id == id
  {
    hide Nonblank;
  }

  lemma RawFits(cap: Capability, code: Fields, target: string, repo: string, g: Option<string>)
    requires CapabilityOk(cap, repo) && RawFromNodes(cap, code, target, repo, g).Entry?
    ensures EntryFits(repo, cap.id, RawFromNodes(cap, code, target, repo, g).raw)
  {
    hide Nonblank, Strip;
  }

  lemma YieldFits(b: Backend, repo: string, g: Option<string>, id: string)
    ensures var e := Yield(b, repo, g, id); e.Some? ==> EntryFits(repo, id, e.value)
  {
    AcceptedOk(b, repo, g, id);
    if Yield(b, repo, g, id).Some? {
      var cap := Accepted(b, repo, g, id).value;
      RawFits(cap, CodeOf(b, repo, g, id).value, cap.entryId, repo, g);
    }
    hide EntryFits, CapabilityOk, RawFromNodes, Accepted, CodeOf;
  }

  /** A code entity does not convert exactly when it is located and one of its line texts is over the limit. */
  lemma UnreadableMeans(cap: Capability, code: Fields, target: string, repo: string, g: Option<string>)
    ensures RawFromNodes(cap, code, target, repo, g).Unreadable?
       <==> Located(code, target, repo, g) && (Overlong(code, "startLine") || Overlong(code, "endLine"))
  {
    hide Strip, Nonblank, IsDecimal, ToNat;
  }

  lemma {:induction false} TargetsDistinct(rows: seq<RelationRow>, id: string, g: Option<string>)
    ensures Distinct(Targets(rows, id, g).0)
  {
    if rows != [] {
      TargetsDistinct(rows[..|rows| - 1], id, g);
    }
  }

  /** The targets are just the entry, with nothing corrupt, exactly when the rows are clean. */
  lemma {:induction false} TargetsClean(rows: seq<RelationRow>, cap: Capability, g: Option<string>)
    ensures Targets(rows, cap.id, g) == ([cap.entryId], false) <==> RowsClean(Rows(rows), cap, g)
    ensures Targets(rows, cap.id, g) == ([], false) <==> rows == []
  {
    if rows != [] {
      var front, last := rows[..|rows| - 1], rows[|rows| - 1];
      TargetsClean(front, cap, g);
      var (targets, corrupt) := Targets(front, cap.id, g);
      var target := RowTarget(last, cap.id, g);
      assert Targets(rows, cap.id, g)
          == if target.None? then (targets, true)
             else if target.value in targets then (targets, corrupt)
             else (targets + [target.value], corrupt);
      RowsCleanSnoc(front, last, cap, g);
      assert rows == front + [last];
      hide *;
      if target.Some? {
        OneTarget(targets, target.value, cap.entryId);
      }
    }
  }

  lemma RowsCleanSnoc(front: seq<RelationRow>, last: RelationRow, cap: Capability, g: Option<string>)
    ensures RowsClean(Rows(front + [last]), cap, g)
       <==> (front == [] || RowsClean(Rows(front), cap, g)) && RowTarget(last, cap.id, g) == Some(cap.entryId)
  {
    hide RowTarget;
    assert forall row :: row in front + [last] <==> row in front || row == last;
  }

  lemma OneTarget(targets: seq<string>, target: string, entry: string)
    ensures targets + [target] == [entry] <==> targets == [] && target == entry
    ensures targets == [entry] ==> (target in targets <==> target == entry)
    ensures target in targets ==> targets != []
    ensures targets + [target] != []
  {
    var longer := targets + [target];
    assert longer[|targets|] == target && |longer| == |targets| + 1;
    assert targets == [] ==> longer == [target];
  }

  /** The whole answer about a capability's relations: its targets, clean or not. */
  lemma RelationsClean(r: Relations, cap: Capability, g: Option<string>)
    ensures Distinct(RelationTargets(r, cap.id, g).0)
    ensures RelationTargets(r, cap.id, g) == ([cap.entryId], false) <==> RowsClean(r, cap, g)
  {
    if r.Rows? {
      TargetsDistinct(r.rows, cap.id, g);
      TargetsClean(r.rows, cap, g);
    }
    hide Targets, RowTarget;
  }

  // ----- one candidate -----

  /** Nothing was added but reasons, and at least one is there. */
  ghost predicate Noted(f: Finding, f': Finding) {
    f'.entries == f.entries && f.reasons <= f'.reasons && f'.reasons != []
    && (BackendUnavailable in f'.reasons ==> BackendUnavailable in f.reasons)
  }

  lemma NoteGrows(f: Finding, r: Reason)
    requires r != BackendUnavailable
    ensures Noted(f, Note(f, r))
  {
  }

  lemma NotedChain(f: Finding, m: Finding, f': Finding)
    requires Noted(f, m) && Noted(m, f')
    ensures Noted(f, f')
  {
  }

  /** A target other than the capability's own entry is noted as corrupt and adds no entry. */
  lemma {:induction false} OtherTargets(
    b: Backend, repo: string, g: Option<string>, cap: Capability, targets: seq<string>, f: Finding)
    requires cap.entryId !in targets
    ensures var r := StepTargets(b, repo, g, cap, targets, f);
            r.Ok? && if targets == [] then r.value == f else Noted(f, r.value)
    decreases |targets|
  {
    if targets != [] {
      NoteGrows(f, CorruptGraphData);
      var m := Note(f, CorruptGraphData);
      assert StepTargets(b, repo, g, cap, targets, f) == StepTargets(b, repo, g, cap, targets[1..], m);
      assert cap.entryId !in targets[1..];
      hide *;
      OtherTargets(b, repo, g, cap, targets[1..], m);
      if targets[1..] != [] {
        NotedChain(f, m, StepTargets(b, repo, g, cap, targets[1..], m).value);
      }
    }
  }

  /** What a step leaves of an entry that may be there: the entry, or a note. */
  ghost predicate AddsOrNotes(f: Finding, e: Option<RawEntry>, f': Finding) {
    if e.Some? then f' == f.(entries := f.entries + [e.value]) else Noted(f, f')
  }

  /** The entry and at least one note besides, or notes alone. */
  ghost predicate AddsAndNotes(f: Finding, e: Option<RawEntry>, f': Finding) {
    && f'.entries == (if e.Some? then f.entries + [e.value] else f.entries)
    && f.reasons <= f'.reasons && f'.reasons != []
    && (BackendUnavailable in f'.reasons ==> BackendUnavailable in f.reasons)
  }

  function EntryAt(b: Backend, repo: string, g: Option<string>, cap: Capability): Option<RawEntry> {
    match b.node(cap.entryId)
    case Some(Record(code)) =>
      (match RawFromNodes(cap, code, cap.entryId, repo, g)
       case Entry(raw) => Some(raw)
       case _ => None)
    case _ => None
  }

  /** Why the read of the capability's own entry fails, if it does. */
  function EntryFailure(b: Backend, repo: string, g: Option<string>, cap: Capability): Option<Failure> {
    match b.node(cap.entryId)
    case None => Some(BackendDown)
    case Some(Record(code)) =>
      if RawFromNodes(cap, code, cap.entryId, repo, g).Unreadable? then Some(LineTooLong) else None
    case _ => None
  }

  /** The entry target gives its entry, or notes why not, unless its read fails. */
  lemma EntryTarget(b: Backend, repo: string, g: Option<string>, cap: Capability, f: Finding)
    ensures var r, failure := StepTarget(b, repo, g, cap, cap.entryId, f), EntryFailure(b, repo, g, cap);
            if failure.Some? then r == Err(failure.value)
            else r.Ok? && AddsOrNotes(f, EntryAt(b, repo, g, cap), r.value)
  {
    NoteGrows(f, CorruptGraphData);
    NoteGrows(f, NoRealization);
    NoteGrows(f, RepoMismatch);
    hide RawFromNodes, Note;
  }

  /** All targets of a capability: its own entry counts, the others are notes. */
  lemma {:induction false} AllTargets(
    b: Backend, repo: string, g: Option<string>, cap: Capability, targets: seq<string>, f: Finding)
    requires Distinct(targets) && cap.entryId in targets
    ensures var r, failure := StepTargets(b, repo, g, cap, targets, f), EntryFailure(b, repo, g, cap);
            if failure.Some? then r == Err(failure.value)
            else r.Ok? && if targets == [cap.entryId] then AddsOrNotes(f, EntryAt(b, repo, g, cap), r.value)
                          else AddsAndNotes(f, EntryAt(b, repo, g, cap), r.value)
    decreases |targets|
  {
    var first, rest := targets[0], targets[1..];
    assert targets == [first] + rest && first !in rest;
    var next := StepTarget(b, repo, g, cap, first, f);
    StepTargetsCons(b, repo, g, cap, targets, f);
    if first == cap.entryId {
      EntryTarget(b, repo, g, cap, f);
      assert rest == [] <==> targets == [cap.entryId];
      if next.Ok? { OtherTargets(b, repo, g, cap, rest, next.value); }
    } else {
      assert next == Ok(Note(f, CorruptGraphData));
      NoteGrows(f, CorruptGraphData);
      AllTargets(b, repo, g, cap, rest, next.value);
    }
    hide StepTargets, StepTarget, EntryAt, EntryFailure, Note;
  }

  lemma StepTargetsCons(
    b: Backend, repo: string, g: Option<string>, cap: Capability, targets: seq<string>, f: Finding)
    requires targets != []
    ensures var next := StepTarget(b, repo, g, cap, targets[0], f);
            StepTargets(b, repo, g, cap, targets, f)
            == if next.Err? then next else StepTargets(b, repo, g, cap, targets[1..], next.value)
  {
    hide StepTarget;
  }

  /** One step of the pass: the entry that the candidate yields, and a note unless it resolves. */
  ghost predicate Stepped(b: Backend, repo: string, g: Option<string>, id: string, f: Finding, f': Finding) {
    && f'.entries == f.entries + EntriesOf(b, repo, g, [id])
    && f.reasons <= f'.reasons && (BackendUnavailable in f'.reasons ==> BackendUnavailable in f.reasons)
    && (if Resolves(b, repo, g, id) then f'.reasons == f.reasons else f'.reasons != [])
  }

  /** The entries that candidates yield, in their order. */
  function EntriesOf(b: Backend, repo: string, g: Option<string>, ids: seq<string>): seq<RawEntry> {
    if ids == [] then []
    else
      var front, e := EntriesOf(b, repo, g, ids[..|ids| - 1]), Yield(b, repo, g, ids[|ids| - 1]);
      if e.Some? then front + [e.value] else front
  }

  /** How a candidate fails, if it does. */
  function FailureOf(b: Backend, repo: string, g: Option<string>, id: string): Option<Failure> {
    if !ReadsAnswer(b, repo, g, id) then Some(BackendDown)
    else if !LinesConvert(b, repo, g, id) then Some(LineTooLong)
    else None
  }

  /** A capability's relations: what they lead to, and a note unless they name its entry and nothing else. */
  lemma CapabilityStep(b: Backend, repo: string, g: Option<string>, cap: Capability, f: Finding)
    ensures var r, e := StepCapability(b, repo, g, cap, f), EntryAt(b, repo, g, cap);
            if b.realizedBy(cap.id).None? then r == Err(BackendDown)
            else if !NamesEntry(b, g, cap) then r.Ok? && Noted(f, r.value)
            else if EntryFailure(b, repo, g, cap).Some? then r == Err(EntryFailure(b, repo, g, cap).value)
            else r.Ok? && if RowsClean(b.realizedBy(cap.id).value, cap, g) then AddsOrNotes(f, e, r.value)
                          else AddsAndNotes(f, e, r.value)
  {
    if b.realizedBy(cap.id).Some? {
      var relations := b.realizedBy(cap.id).value;
      var (targets, corrupt) := RelationTargets(relations, cap.id, g);
      var noted := if corrupt then Note(f, CorruptGraphData) else f;
      RelationsClean(relations, cap, g);
      assert StepCapability(b, repo, g, cap, f)
          == if targets != [] then StepTargets(b, repo, g, cap, targets, noted)
             else if g.None? || !corrupt then Ok(Note(noted, NoRealization))
             else Ok(noted);
      NoteGrows(f, CorruptGraphData);
      NoteGrows(noted, NoRealization);
      assert NamesEntry(b, g, cap) <==> cap.entryId in targets;
      assert noted == f || (corrupt && Noted(f, noted));
      hide RelationTargets, StepCapability, StepTargets, RowsClean, EntryAt, EntryFailure, Note, Distinct, NamesEntry;
      if cap.entryId in targets {
        AllTargets(b, repo, g, cap, targets, noted);
      } else {
        OtherTargets(b, repo, g, cap, targets, noted);
      }
    }
  }

  /** What a capability's entry has to do with its candidate. */
  lemma EntryOfCandidate(b: Backend, repo: string, g: Option<string>, id: string)
    requires Accepted(b, repo, g, id).Some?
    ensures var cap := Accepted(b, repo, g, id).value;
            && cap.id == id
            && Yield(b, repo, g, id) == (if NamesEntry(b, g, cap) then EntryAt(b, repo, g, cap) else None)
            && FailureOf(b, repo, g, id)
               == if b.realizedBy(id).None? then Some(BackendDown)
                  else if NamesEntry(b, g, cap) then EntryFailure(b, repo, g, cap) else None
  {
    var cap := Accepted(b, repo, g, id).value;
    AcceptedOk(b, repo, g, id);
    match b.node(cap.entryId)
    case Some(Record(code)) => UnreadableMeans(cap, code, cap.entryId, repo, g);
    case _ =>
    hide CapabilityOf, InGeneration, CapabilityOk, RawFromNodes, Located, Overlong, NamesEntry;
  }

  lemma NoEntry(b: Backend, repo: string, g: Option<string>, id: string)
    ensures EntriesOf(b, repo, g, [id]) == if Yield(b, repo, g, id).Some? then [Yield(b, repo, g, id).value] else []
  {
    assert [id][..0] == [];
    hide Yield;
  }

  /** A candidate that is not accepted is noted, unless its read fails. */
  lemma NotAccepted(b: Backend, repo: string, g: Option<string>, id: string, f: Finding)
    requires Accepted(b, repo, g, id).None?
    ensures var r := StepCandidate(b, repo, g, id, f);
            && Yield(b, repo, g, id).None?
            && (if b.node(id).None? then r == Err(BackendDown) && FailureOf(b, repo, g, id) == Some(BackendDown)
                else r.Ok? && Noted(f, r.value) && FailureOf(b, repo, g, id).None?)
  {
    NoteGrows(f, NoCapabilityMatch);
    NoteGrows(f, CorruptGraphData);
    NoteGrows(f, RepoMismatch);
    hide CapabilityOf, Note, Noted, InGeneration;
  }

  lemma AcceptedStep(b: Backend, repo: string, g: Option<string>, id: string, f: Finding)
    requires Accepted(b, repo, g, id).Some?
    ensures StepCandidate(b, repo, g, id, f) == StepCapability(b, repo, g, Accepted(b, repo, g, id).value, f)
  {
    hide CapabilityOf, InGeneration, StepCapability;
  }

  lemma SteppedNoted(b: Backend, repo: string, g: Option<string>, id: string, f: Finding, f': Finding)
    requires Yield(b, repo, g, id).None? && Noted(f, f')
    ensures Stepped(b, repo, g, id, f, f')
  {
    NoEntry(b, repo, g, id);
    assert f.entries + [] == f.entries;
    hide Yield, EntriesOf;
  }

  lemma SteppedEntry(b: Backend, repo: string, g: Option<string>, id: string, f: Finding, f': Finding)
    requires Yield(b, repo, g, id).Some?
    requires if Resolves(b, repo, g, id) then AddsOrNotes(f, Yield(b, repo, g, id), f')
             else AddsAndNotes(f, Yield(b, repo, g, id), f')
    ensures Stepped(b, repo, g, id, f, f')
  {
    NoEntry(b, repo, g, id);
    hide Yield, EntriesOf, Resolves;
  }

  lemma SteppedUnclean(b: Backend, repo: string, g: Option<string>, id: string, f: Finding, f': Finding)
    requires Yield(b, repo, g, id).None?
    requires AddsOrNotes(f, None, f') || AddsAndNotes(f, None, f')
    ensures Stepped(b, repo, g, id, f, f')
  {
    hide Yield, Resolves, EntriesOf;
    SteppedNoted(b, repo, g, id, f, f');
  }

  lemma ResolvesWhen(b: Backend, repo: string, g: Option<string>, id: string)
    requires Yield(b, repo, g, id).Some?
    ensures var cap := Accepted(b, repo, g, id);
            && cap.Some? && b.realizedBy(cap.value.id).Some?
            && (Resolves(b, repo, g, id) <==> RowsClean(b.realizedBy(cap.value.id).value, cap.value, g))
  {
    hide Accepted, RowsClean, RawFromNodes, RelationTargets;
  }

  /**
   A candidate fails exactly when a read made for it fails or a line text it leads to does not convert.
   Otherwise it adds the one entry it yields, if any, and a reason exactly when it does not resolve.
   */
  lemma CandidateStep(b: Backend, repo: string, g: Option<string>, id: string, f: Finding)
    ensures var r, failure := StepCandidate(b, repo, g, id, f), FailureOf(b, repo, g, id);
            if failure.Some? then r == Err(failure.value) else r.Ok? && Stepped(b, repo, g, id, f, r.value)
  {
    hide *;
    var cap := Accepted(b, repo, g, id);
    var r := StepCandidate(b, repo, g, id, f);
    if cap.None? {
      NotAccepted(b, repo, g, id, f);
      if r.Ok? { SteppedNoted(b, repo, g, id, f, r.value); }
    } else {
      AcceptedStep(b, repo, g, id, f);
      CapabilityStep(b, repo, g, cap.value, f);
      EntryOfCandidate(b, repo, g, id);
      if r.Ok? {
        if Yield(b, repo, g, id).Some? {
          ResolvesWhen(b, repo, g, id);
          SteppedEntry(b, repo, g, id, f, r.value);
        } else if NamesEntry(b, g, cap.value) {
          SteppedUnclean(b, repo, g, id, f, r.value);
        } else {
          SteppedNoted(b, repo, g, id, f, r.value);
        }
      }
    }
  }

  // ----- the whole pass -----

  /** What a pass over some candidates has gathered: what they yield, and no reason exactly when all resolve. */
  ghost predicate Gathered(b: Backend, repo: string, g: Option<string>, ids: seq<string>, f: Finding) {
    && f.entries == EntriesOf(b, repo, g, ids) && BackendUnavailable !in f.reasons
    && (f.reasons == [] <==> forall id :: id in ids ==> Resolves(b, repo, g, id))
  }

  /** How the first candidate that fails does so. */
  function FirstFailure(b: Backend, repo: string, g: Option<string>, ids: seq<string>): Option<Failure> {
    if ids == [] then None
    else
      var failure := FailureOf(b, repo, g, ids[0]);
      if failure.Some? then failure else FirstFailure(b, repo, g, ids[1..])
  }

  lemma GatherStep(
    b: Backend, repo: string, g: Option<string>, seen: seq<string>, id: string, f: Finding, f': Finding)
    requires Gathered(b, repo, g, seen, f) && Stepped(b, repo, g, id, f, f')
    ensures Gathered(b, repo, g, seen + [id], f')
  {
    EntriesSnoc(b, repo, g, seen, id);
    ResolvesSnoc(b, repo, g, seen, id);
    hide Resolves, EntriesOf;
    assert f.reasons <= f'.reasons;
    assert f'.reasons == [] ==> f.reasons == [];
  }

  lemma EntriesSnoc(b: Backend, repo: string, g: Option<string>, seen: seq<string>, id: string)
    ensures EntriesOf(b, repo, g, seen + [id]) == EntriesOf(b, repo, g, seen) + EntriesOf(b, repo, g, [id])
  {
    NoEntry(b, repo, g, id);
    assert (seen + [id])[..|seen|] == seen;
    hide Yield;
    assert EntriesOf(b, repo, g, seen) + [] == EntriesOf(b, repo, g, seen);
  }

  lemma ResolvesSnoc(b: Backend, repo: string, g: Option<string>, seen: seq<string>, id: string)
    ensures (forall x :: x in seen + [id] ==> Resolves(b, repo, g, x))
       <==> (forall x :: x in seen ==> Resolves(b, repo, g, x)) && Resolves(b, repo, g, id)
  {
    hide Resolves;
    assert id in seen + [id] && forall x :: x in seen + [id] <==> x in seen || x == id;
  }

  lemma {:induction false} GatherAll(
    b: Backend, repo: string, g: Option<string>, seen: seq<string>, ids: seq<string>, f: Finding)
    requires Gathered(b, repo, g, seen, f)
    ensures var r, failure := StepAll(b, repo, g, ids, f), FirstFailure(b, repo, g, ids);
            if failure.Some? then r == Err(failure.value) else r.Ok? && Gathered(b, repo, g, seen + ids, r.value)
    decreases |ids|
  {
    if ids == [] {
      assert seen + ids == seen;
    } else {
      CandidateStep(b, repo, g, ids[0], f);
      var next := StepCandidate(b, repo, g, ids[0], f);
      assert seen + ids == (seen + [ids[0]]) + ids[1..];
      hide Gathered, StepCandidate, Stepped, FailureOf;
      if next.Ok? {
        GatherStep(b, repo, g, seen, ids[0], f, next.value);
        GatherAll(b, repo, g, seen + [ids[0]], ids[1..], next.value);
      }
    }
  }

  /** Every read made for the candidates answers and every line text they lead to converts. */
  predicate AllRead(b: Backend, repo: string, g: Option<string>, ids: seq<string>) {
    forall id :: id in ids ==> ReadsAnswer(b, repo, g, id) && LinesConvert(b, repo, g, id)
  }

  /** The failure is that of some candidate. */
  ghost predicate FailsAs(b: Backend, repo: string, g: Option<string>, ids: seq<string>, failure: Failure) {
    || (failure == BackendDown && exists id :: id in ids && !ReadsAnswer(b, repo, g, id))
    || (failure == LineTooLong && exists id :: id in ids && !LinesConvert(b, repo, g, id))
  }

  lemma {:induction false} NoFailure(b: Backend, repo: string, g: Option<string>, ids: seq<string>)
    ensures FirstFailure(b, repo, g, ids).None? <==> AllRead(b, repo, g, ids)
    ensures FirstFailure(b, repo, g, ids).Some? ==> FailsAs(b, repo, g, ids, FirstFailure(b, repo, g, ids).value)
  {
    hide ReadsAnswer, LinesConvert;
    if ids != [] {
      NoFailure(b, repo, g, ids[1..]);
      assert ids == [ids[0]] + ids[1..];
    }
  }

  /**
   With good arguments a lookup gives a finding exactly when every read it makes is answered and every
   line text it reaches converts; the finding then holds just the entries that the candidates yield,
   and no reason exactly when every candidate resolves.
   */
  lemma LookupGathers(b: Backend, repo: string, ids: seq<string>, generation: Option<string>)
    requires ArgumentsOk(repo, ids, generation)
    ensures var r, g := Lookup(b, repo, ids, generation), Normalized(generation);
            && (r.Ok? <==> AllRead(b, repo, g, ids))
            && (if r.Ok? then Gathered(b, repo, g, Dedup(ids), r.value) else FailsAs(b, repo, g, ids, r.error))
  {
    var g := Normalized(generation);
    assert Gathered(b, repo, g, [], Finding([], []));
    assert [] + Dedup(ids) == Dedup(ids);
    assert Lookup(b, repo, ids, generation) == StepAll(b, repo, g, Dedup(ids), Finding([], []));
    SameRead(b, repo, g, ids);
    hide *;
    NoFailure(b, repo, g, Dedup(ids));
    GatherAll(b, repo, g, [], Dedup(ids), Finding([], []));
  }

  lemma SameRead(b: Backend, repo: string, g: Option<string>, ids: seq<string>)
    ensures AllRead(b, repo, g, Dedup(ids)) <==> AllRead(b, repo, g, ids)
    ensures forall failure :: FailsAs(b, repo, g, Dedup(ids), failure) ==> FailsAs(b, repo, g, ids, failure)
  {
    hide ReadsAnswer, LinesConvert;
  }

  /** A candidate that resolves was read. */
  lemma ResolvesRead(b: Backend, repo: string, g: Option<string>, id: string)
    requires Resolves(b, repo, g, id)
    ensures ReadsAnswer(b, repo, g, id) && LinesConvert(b, repo, g, id)
  {
    var cap := Accepted(b, repo, g, id).value;
    UnreadableMeans(cap, CodeOf(b, repo, g, id).value, cap.entryId, repo, g);
    hide Accepted, RowsClean, RawFromNodes, Located, Overlong, RelationTargets;
  }

  /** No two entries name the same capability. */
  ghost predicate OnePerCapability(entries: seq<RawEntry>) {
    forall i, j :: 0 <= i < j < |entries| ==> entries[i].capabilityId != entries[j].capabilityId
  }

  /** The entries are fit for assembly, those that the candidates yield and no others. */
  ghost predicate YieldedBy(b: Backend, repo: string, g: Option<string>, ids: seq<string>, entries: seq<RawEntry>) {
    && (forall e :: e in entries ==> EntryFits(repo, e.capabilityId, e))
    && (forall e :: e in entries <==> e.capabilityId in ids && Yield(b, repo, g, e.capabilityId) == Some(e))
  }

  lemma YieldedSnoc(
    b: Backend, repo: string, g: Option<string>, ids: seq<string>, entries: seq<RawEntry>, id: string, e: RawEntry)
    requires YieldedBy(b, repo, g, ids, entries) && Yield(b, repo, g, id) == Some(e)
    requires e.capabilityId == id && EntryFits(repo, id, e)
    ensures YieldedBy(b, repo, g, ids + [id], entries + [e])
  {
    hide Yield, EntryFits;
    assert forall x :: x in ids + [id] <==> x in ids || x == id;
    assert forall x :: x in entries + [e] <==> x in entries || x == e;
  }

  lemma YieldedSame(
    b: Backend, repo: string, g: Option<string>, ids: seq<string>, entries: seq<RawEntry>, id: string)
    requires YieldedBy(b, repo, g, ids, entries) && Yield(b, repo, g, id).None?
    ensures YieldedBy(b, repo, g, ids + [id], entries)
  {
    hide Yield, EntryFits;
    assert forall x :: x in ids + [id] <==> x in ids || x == id;
  }

  lemma {:induction false} EntriesYielded(b: Backend, repo: string, g: Option<string>, ids: seq<string>)
    ensures YieldedBy(b, repo, g, ids, EntriesOf(b, repo, g, ids))
  {
    if ids != [] {
      var front, last := ids[..|ids| - 1], ids[|ids| - 1];
      assert ids == front + [last];
      hide *;
      EntriesYielded(b, repo, g, front);
      EntriesSnoc(b, repo, g, front, last);
      NoEntry(b, repo, g, last);
      var entries, e := EntriesOf(b, repo, g, front), Yield(b, repo, g, last);
      if e.Some? {
        YieldFits(b, repo, g, last);
        EntryId(repo, last, e.value);
        YieldedSnoc(b, repo, g, front, entries, last, e.value);
      } else {
        YieldedSame(b, repo, g, front, entries, last);
        assert entries + [] == entries;
      }
    }
  }

  lemma {:induction false} EntriesSingle(b: Backend, repo: string, g: Option<string>, ids: seq<string>)
    requires Distinct(ids)
    ensures OnePerCapability(EntriesOf(b, repo, g, ids))
  {
    if ids != [] {
      var front, last := ids[..|ids| - 1], ids[|ids| - 1];
      assert last !in front;
      EntriesSingle(b, repo, g, front);
      EntriesYielded(b, repo, g, front);
      YieldFits(b, repo, g, last);
      var e := Yield(b, repo, g, last);
      if e.Some? { EntryId(repo, last, e.value); }
      hide Yield, EntryFits;
    }
  }

  /** The gathered entries are fit for assembly, one for each candidate that yields one. */
  lemma EntriesFit(b: Backend, repo: string, g: Option<string>, ids: seq<string>)
    ensures var entries := EntriesOf(b, repo, g, ids);
            && (forall e :: e in entries ==> e.capabilityId in ids && EntryFits(repo, e.capabilityId, e))
            && (forall e :: e in entries <==> e.capabilityId in ids && Yield(b, repo, g, e.capabilityId) == Some(e))
            && (Distinct(ids) ==> OnePerCapability(entries))
  {
    EntriesYielded(b, repo, g, ids);
    if Distinct(ids) { EntriesSingle(b, repo, g, ids); }
    hide Yield, EntriesOf, EntryFits, Distinct;
  }

  lemma EntryId(repo: string, id: string, e: RawEntry)
    requires EntryFits(repo, id, e)
    ensures e.capabilityId == id
  {
  }
}
