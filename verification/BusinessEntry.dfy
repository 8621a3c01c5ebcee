/** Records of the business-entry lookup, with the checks their constructors make. */
module BusinessEntry {
  import opened Collections
  import opened Ordering
  import opened Texts
  import opened Wrappers

  datatype Status = Found | NotFound | Degraded | Unavailable

  datatype Reason =
    | NoCapabilityMatch | NoRealization | RepoMismatch | MissingEntryMetadata
    | UnsupportedEntryCategory | CorruptGraphData | BackendUnavailable

  /** A stored or parsed value; an absent key and a null value read the same. */
  datatype Value = Str(text: string) | Int(number: int) | Bool(flag: bool) | Other

  type Fields = map<string, Value>

  /** What reading a metadata text gives: an object, some refusal to read it as one, or an escaping exception. */
  datatype Parsed = JsonObject(fields: Fields) | NotJsonObject | ParserRaises

  datatype Pair = Pair(key: string, value: string)

  datatype RawEntry = RawEntry(
    capabilityId: string, capabilityName: string, capabilityDomain: string, capabilityRepoId: string,
    codeEntityId: string, codeEntityRepoId: string, entryName: string, entryCategory: Option<string>,
    filePath: Option<string>, startLine: Option<int>, endLine: Option<int>, entryMetadata: Option<string>,
    generationId: Option<string>)

  datatype Evidence = Evidence(
    repoId: string, capabilityId: string, capabilityName: string, capabilityDomain: string, capabilityScore: real,
    codeEntityId: string, entryName: string, entryCategory: Option<string>, filePath: Option<string>,
    startLine: Option<int>, endLine: Option<int>, endpoint: seq<Pair>)

  datatype LookupResult = LookupResult(status: Status, evidences: seq<Evidence>, reasons: seq<Reason>)

  // ----- constructor checks -----

  predicate LinesOk(start: Option<int>, end: Option<int>) {
    && (start.Some? ==> start.value > 0) && (end.Some? ==> end.value > 0)
    && (start.Some? && end.Some? ==> start.value <= end.value)
  }

  predicate PathOk(path: Option<string>) { path.Some? ==> Nonblank(path.value) }

  predicate ValidRaw(e: RawEntry) {
    && Nonblank(e.capabilityId) && Nonblank(e.capabilityName) && Nonblank(e.capabilityDomain)
    && Nonblank(e.capabilityRepoId) && Nonblank(e.codeEntityId) && Nonblank(e.codeEntityRepoId)
    && Nonblank(e.entryName) && PathOk(e.filePath) && LinesOk(e.startLine, e.endLine)
  }

  /** `_normalize_endpoint`: stripped, with unique nonblank keys and nonblank values, sorted; absent where it raises. */
  function NormalizeEndpoint(pairs: seq<Pair>): Option<seq<Pair>> {
    if !(forall p :: p in pairs ==> Nonblank(p.key) && Nonblank(p.value)) then None
    else
      var stripped := StripPairs(pairs);
      if !UniqueKeys(stripped) then None else Some(Sort(stripped, PairLe))
  }

  function StripPairs(pairs: seq<Pair>): (r: seq<Pair>)
    ensures |r| == |pairs| && forall i :: 0 <= i < |r| ==> r[i] == Pair(Strip(pairs[i].key), Strip(pairs[i].value))
  {
    seq(|pairs|, i requires 0 <= i < |pairs| => Pair(Strip(pairs[i].key), Strip(pairs[i].value)))
  }

  predicate UniqueKeys(pairs: seq<Pair>) {
    forall i, j :: 0 <= i < j < |pairs| ==> pairs[i].key != pairs[j].key
  }

  predicate PairLe(a: Pair, b: Pair) {
    if a.key == b.key then StrLe(a.value, b.value) else StrLe(a.key, b.key)
  }

  function MakeEvidence(e: Evidence): Option<Evidence> {
    if Nonblank(e.repoId) && Nonblank(e.capabilityId) && Nonblank(e.capabilityName) && Nonblank(e.capabilityDomain)
       && Nonblank(e.codeEntityId) && Nonblank(e.entryName) && PathOk(e.filePath) && LinesOk(e.startLine, e.endLine)
       && 0.0 <= e.capabilityScore <= 1.0 && NormalizeEndpoint(e.endpoint).Some?
    then Some(e.(endpoint := NormalizeEndpoint(e.endpoint).value))
    else None
  }

  predicate OnlyMisses(reasons: seq<Reason>) {
    forall r :: r in reasons ==> r == NoCapabilityMatch || r == NoRealization
  }

  /** The invariants of the public result. */
  predicate ValidResult(r: LookupResult) {
    match r.status
    case Found => r.evidences != [] && r.reasons == []
    case NotFound => r.evidences == [] && r.reasons != [] && OnlyMisses(r.reasons)
    case Degraded => r.reasons != [] && BackendUnavailable !in r.reasons
    case Unavailable => r.evidences == [] && r.reasons == [BackendUnavailable]
  }

  // ----- endpoints -----

  /** The metadata fields that make an endpoint, by category. */
  const ENDPOINT_FIELDS: map<string, seq<string>> := map[
    "http_api" := ["route", "method"], "rpc_service" := ["route", "method"], "scheduled" := ["cron", "schedule"],
    "mq_consumer" := ["topic"], "event_handler" := ["event"]
  ]

  function EndpointPairs(keys: seq<string>, metadata: Fields): seq<Pair> {
    if keys == [] then []
    else
      var rest := EndpointPairs(keys[1..], metadata);
      if keys[0] in metadata && metadata[keys[0]].Str? && Nonblank(metadata[keys[0]].text)
      then [Pair(keys[0], Strip(metadata[keys[0]].text))] + rest
      else rest
  }

  /** An extracted endpoint, and why it is missing. */
  datatype Endpoint = Endpoint(pairs: seq<Pair>, reason: Option<Reason>)

  /**
   The endpoint in a metadata text, absent where the parser raises what is not caught. The parser is
   asked before the category is looked at.
   */
  function EndpointFromMetadata(
    parse: string -> Parsed, category: Option<string>, raw: Option<string>): Option<Endpoint>
  {
    if raw.None? || !Nonblank(raw.value) then Some(Endpoint([], Some(MissingEntryMetadata)))
    else match parse(raw.value)
      case ParserRaises => None
      case NotJsonObject => Some(Endpoint([], Some(MissingEntryMetadata)))
      case JsonObject(metadata) =>
        if category.None? || category.value !in ENDPOINT_FIELDS then Some(Endpoint([], Some(UnsupportedEntryCategory)))
        else
          var pairs := Sort(EndpointPairs(ENDPOINT_FIELDS[category.value], metadata), PairLe);
          Some(Endpoint(pairs, if pairs == [] then Some(MissingEntryMetadata) else None))
  }

  lemma EndpointPairsOk(keys: seq<string>, metadata: Fields)
    requires forall i, j :: 0 <= i < j < |keys| ==> keys[i] != keys[j]
    ensures var pairs := EndpointPairs(keys, metadata);
            && UniqueKeys(pairs)
            && forall p :: p in pairs ==> p.key in keys && Nonblank(p.value) && Strip(p.value) == p.value
  {
    hide Strip, Nonblank;
    if keys != [] {
      EndpointPairsOk(keys[1..], metadata);
      assert keys == [keys[0]] + keys[1..] && keys[0] !in keys[1..];
      if keys[0] in metadata && metadata[keys[0]].Str? && Nonblank(metadata[keys[0]].text) {
        StripNonblank(metadata[keys[0]].text);
        StripIdempotent(metadata[keys[0]].text);
      }
    }
  }

  lemma PlainKey(k: string)
    requires k != "" && !IsSpace(k[0]) && !IsSpace(k[|k| - 1])
    ensures Nonblank(k) && Strip(k) == k
  {
  }

  lemma PlainKeys()
    ensures forall k :: k in ["route", "method", "cron", "schedule", "topic", "event"] ==> Nonblank(k) && Strip(k) == k
  {
    PlainKey("route");
    PlainKey("method");
    PlainKey("cron");
    PlainKey("schedule");
    PlainKey("topic");
    PlainKey("event");
    hide Strip, Nonblank;
  }

  lemma FieldKeys(category: string)
    requires category in ENDPOINT_FIELDS
    ensures var keys := ENDPOINT_FIELDS[category];
            && (forall i, j :: 0 <= i < j < |keys| ==> keys[i] != keys[j])
            && forall k :: k in keys ==> Nonblank(k) && Strip(k) == k
  {
    PlainKeys();
    assert "route"[0] != "method"[0] && "cron"[0] != "schedule"[0];
    hide Strip, Nonblank;
  }

  lemma RearrangedKeys(a: seq<Pair>, b: seq<Pair>)
    requires multiset(a) == multiset(b) && UniqueKeys(a)
    ensures UniqueKeys(b)
  {
    assert Distinct(a);
    MultisetDistinct(a, b);
    forall i, j | 0 <= i < j < |b| ensures b[i].key != b[j].key {
      assert b[i] in multiset(a) && b[j] in multiset(a);
      var k :| 0 <= k < |a| && a[k] == b[i];
      var l :| 0 <= l < |a| && a[l] == b[j];
      assert k < l || l < k;
    }
  }

  /** An extracted endpoint always passes the evidence constructor, which leaves it as it is. */
  lemma EndpointAccepted(parse: string -> Parsed, category: Option<string>, raw: Option<string>)
    ensures EndpointFromMetadata(parse, category, raw).None?
       <==> raw.Some? && Nonblank(raw.value) && parse(raw.value).ParserRaises?
    ensures EndpointFromMetadata(parse, category, raw).Some? ==>
              var e := EndpointFromMetadata(parse, category, raw).value;
              && NormalizeEndpoint(e.pairs) == Some(e.pairs) && (e.reason.None? <==> e.pairs != [])
              && e.reason != Some(BackendUnavailable)
  {
    if EndpointFromMetadata(parse, category, raw).Some? {
      var pairs := EndpointFromMetadata(parse, category, raw).value.pairs;
      if pairs == [] {
        assert StripPairs(pairs) == [] && Sort<Pair>([], PairLe) == [];
      } else {
        PairsAccepted(category.value, parse(raw.value).fields);
      }
    }
    hide NormalizeEndpoint, Nonblank, EndpointPairs;
  }

  lemma PairsAccepted(category: string, metadata: Fields)
    requires category in ENDPOINT_FIELDS
    ensures var pairs := Sort(EndpointPairs(ENDPOINT_FIELDS[category], metadata), PairLe);
            NormalizeEndpoint(pairs) == Some(pairs) && UniqueKeys(pairs) && Sorted(pairs, PairLe)
  {
    var keys := ENDPOINT_FIELDS[category];
    var found := EndpointPairs(keys, metadata);
    var pairs := Sort(found, PairLe);
    FieldKeys(category);
    EndpointPairsOk(keys, metadata);
    SortElements(found, PairLe);
    RearrangedKeys(found, pairs);
    hide Strip, Nonblank, EndpointPairs, Sort;
    forall i | 0 <= i < |pairs| ensures StripPairs(pairs)[i] == pairs[i] {
      assert pairs[i] in found;
    }
    assert StripPairs(pairs) == pairs;
    SortedPairs(found);
    SortedPairs(pairs);
    SortedUnique(pairs, Sort(pairs, PairLe), PairLe);
  }

  lemma SortedPairs(pairs: seq<Pair>)
    ensures Sorted(Sort(pairs, PairLe), PairLe) && forall a, b :: PairLe(a, b) && PairLe(b, a) ==> a == b
  {
    StrLeIsOrder();
    hide StrLe;
    assert TotalPreorder(PairLe);
    SortSorted(pairs, PairLe);
  }

  // ----- which fields make an endpoint -----

  /** The metadata fields that count for a category of entries. */
  ghost predicate Counts(category: string, field: string) {
    || ((category == "http_api" || category == "rpc_service") && (field == "route" || field == "method"))
    || (category == "scheduled" && (field == "cron" || field == "schedule"))
    || (category == "mq_consumer" && field == "topic")
    || (category == "event_handler" && field == "event")
  }

  ghost predicate Supported(category: Option<string>) {
    category.Some?
    && category.value in {"http_api", "rpc_service", "scheduled", "mq_consumer", "event_handler"}
  }

  lemma FieldsCount(category: string)
    ensures category in ENDPOINT_FIELDS <==> Supported(Some(category))
    ensures category in ENDPOINT_FIELDS ==>
              forall field :: field in ENDPOINT_FIELDS[category] <==> Counts(category, field)
  {
  }

  lemma {:induction false} PairsExact(keys: seq<string>, metadata: Fields)
    ensures forall p :: p in EndpointPairs(keys, metadata)
              <==> && p.key in keys && p.key in metadata && metadata[p.key].Str? && Nonblank(metadata[p.key].text)
                   && p.value == Strip(metadata[p.key].text)
  {
    hide Strip, Nonblank;
    if keys != [] {
      PairsExact(keys[1..], metadata);
      assert keys == [keys[0]] + keys[1..];
    }
  }

  /**
   The endpoint that metadata gives: of an object, for a supported category, just the fields that count
   and hold a text that is not blank, stripped, each once in the order of their names. There is a reason
   exactly where nothing is found, and it is the category's when an object is read and the category is
   not supported.
   */
  lemma EndpointExact(parse: string -> Parsed, category: Option<string>, raw: Option<string>)
    requires EndpointFromMetadata(parse, category, raw).Some?
    ensures var e := EndpointFromMetadata(parse, category, raw).value;
            var read := raw.Some? && Nonblank(raw.value) && parse(raw.value).JsonObject?;
            && (forall p :: p in e.pairs
                  <==> && read && Supported(category) && Counts(category.value, p.key)
                       && var metadata := parse(raw.value).fields;
                          && p.key in metadata && metadata[p.key].Str? && Nonblank(metadata[p.key].text)
                          && p.value == Strip(metadata[p.key].text))
            && (forall i, j :: 0 <= i < j < |e.pairs| ==>
                  StrLe(e.pairs[i].key, e.pairs[j].key) && e.pairs[i].key != e.pairs[j].key)
            && e.reason == if read && !Supported(category) then Some(UnsupportedEntryCategory)
                           else if e.pairs == [] then Some(MissingEntryMetadata) else None
  {
    if raw.Some? && Nonblank(raw.value) && parse(raw.value).JsonObject? && category.Some? {
      var metadata := parse(raw.value).fields;
      FieldsCount(category.value);
      if category.value in ENDPOINT_FIELDS {
        var keys := ENDPOINT_FIELDS[category.value];
        PairsExact(keys, metadata);
        PairsAccepted(category.value, metadata);
        SortElements(EndpointPairs(keys, metadata), PairLe);
      }
    }
    hide Nonblank, Strip, EndpointPairs, Sort, StrLe, ENDPOINT_FIELDS, Supported, Counts, NormalizeEndpoint;
  }

  // ----- what the constructors accept -----

  /** The lines are positive where they are known, and in order where both are. */
  ghost predicate LinesInOrder(start: Option<int>, end: Option<int>) {
    && (forall line :: line in [start, end] && line != None ==> line.value >= 1)
    && (start != None && end != None ==> end.value >= start.value)
  }

  ghost predicate AllNonblank(texts: seq<string>) { forall text :: text in texts ==> Nonblank(text) }

  /** An entry is accepted with nonblank texts, a path that is not blank if there is one, and lines in order. */
  lemma EntryAccepted(e: RawEntry)
    ensures ValidRaw(e)
       <==> && AllNonblank([e.capabilityId, e.capabilityName, e.capabilityDomain, e.capabilityRepoId,
                            e.codeEntityId, e.codeEntityRepoId, e.entryName])
            && (e.filePath == None || Nonblank(e.filePath.value)) && LinesInOrder(e.startLine, e.endLine)
  {
    hide Nonblank;
    LinesMean(e.startLine, e.endLine);
    hide LinesOk, LinesInOrder;
    var texts := [e.capabilityId, e.capabilityName, e.capabilityDomain, e.capabilityRepoId,
                  e.codeEntityId, e.codeEntityRepoId, e.entryName];
    assert forall i :: 0 <= i < |texts| ==> texts[i] in texts;
  }

  lemma LinesMean(start: Option<int>, end: Option<int>)
    ensures LinesOk(start, end) <==> LinesInOrder(start, end)
  {
    assert start in [start, end] && end in [start, end];
  }

  /**
   An evidence likewise, with a score between zero and one and an endpoint whose keys and values are not
   blank and whose keys differ once stripped; it then shows the endpoint stripped and in order.
   */
  lemma EvidenceAcceptedExactly(e: Evidence)
    ensures MakeEvidence(e).Some?
       <==> && AllNonblank([e.repoId, e.capabilityId, e.capabilityName, e.capabilityDomain,
                            e.codeEntityId, e.entryName])
            && (e.filePath == None || Nonblank(e.filePath.value)) && LinesInOrder(e.startLine, e.endLine)
            && 0.0 <= e.capabilityScore <= 1.0
            && (forall p :: p in e.endpoint ==> Nonblank(p.key) && Nonblank(p.value))
            && (forall i, j :: 0 <= i < j < |e.endpoint| ==> Strip(e.endpoint[i].key) != Strip(e.endpoint[j].key))
    ensures MakeEvidence(e).Some? ==>
              var shown := MakeEvidence(e).value;
              && shown == e.(endpoint := shown.endpoint) && Sorted(shown.endpoint, PairLe)
              && multiset(shown.endpoint) == multiset(StripPairs(e.endpoint))
  {
    hide Nonblank, Strip;
    LinesMean(e.startLine, e.endLine);
    SortedPairs(StripPairs(e.endpoint));
    hide LinesOk, LinesInOrder, Sort, PairLe;
    var texts := [e.repoId, e.capabilityId, e.capabilityName, e.capabilityDomain, e.codeEntityId, e.entryName];
    assert forall i :: 0 <= i < |texts| ==> texts[i] in texts;
  }
}
