/** What a served record may show: public properties, and references to nodes of the same page only. */
module References {
  import opened Collections
  import opened ServiceGraph
  import opened Wrappers

  const INTERNAL_KEYS := {"factPayload", "workspaceId", "generationId", "namespace", "factId", "sourceRevision"}

  const REFERENCE_KEYS := {
    "provider_operation_id", "providerOperationId", "provider_endpoint_id", "providerEndpointId",
    "provider_endpoint_reference", "providerEndpointReference", "target_reference", "targetReference",
    "caller_implementation_id", "callerImplementationId", "implementation_id", "implementationId",
    "endpoint_id", "endpointId", "operation_id", "operationId", "evidence_id", "evidenceId",
    "evidence_ids", "evidenceIds"
  }

  const TARGET_KEYS := {"target_reference", "targetReference"}

  predicate IsSemantic(text: string) {
    || "spring-http:" <= text || "feign-http:" <= text || "dubbo-operation:" <= text
    || "grpc-operation:" <= text || "messaging-operation:" <= text
  }

  predicate IsPublicKey(key: string) { key !in INTERNAL_KEYS && !("_" <= key) }

  function PublicProps(p: Props): Props { map k | k in p && IsPublicKey(k) :: p[k] }

  function PublicNode(n: Node): Node { n.(props := PublicProps(n.props)) }

  function PublicEdge(e: Edge): Edge { e.(props := PublicProps(e.props)) }

  function PublicNodes(nodes: seq<Node>): (r: seq<Node>)
    ensures |r| == |nodes| && forall i :: 0 <= i < |nodes| ==> r[i] == PublicNode(nodes[i])
  {
    if nodes == [] then [] else [PublicNode(nodes[0])] + PublicNodes(nodes[1..])
  }

  function PublicEdges(edges: seq<Edge>): (r: seq<Edge>)
    ensures |r| == |edges| && forall i :: 0 <= i < |edges| ==> r[i] == PublicEdge(edges[i])
  {
    if edges == [] then [] else [PublicEdge(edges[0])] + PublicEdges(edges[1..])
  }

  lemma PublicMembers(nodes: seq<Node>)
    ensures forall m :: m in PublicNodes(nodes) <==> exists n :: n in nodes && m == PublicNode(n)
  {
    forall n | n in nodes ensures PublicNode(n) in PublicNodes(nodes) {
      var i :| 0 <= i < |nodes| && nodes[i] == n;
      assert PublicNodes(nodes)[i] == PublicNode(n);
    }
    forall m | m in PublicNodes(nodes) ensures exists n :: n in nodes && m == PublicNode(n) {
      var i :| 0 <= i < |nodes| && PublicNodes(nodes)[i] == m;
      assert nodes[i] in nodes;
    }
  }

  lemma PublicEdgeMembers(edges: seq<Edge>)
    ensures forall m :: m in PublicEdges(edges) <==> exists e :: e in edges && m == PublicEdge(e)
  {
    forall e | e in edges ensures PublicEdge(e) in PublicEdges(edges) {
      var i :| 0 <= i < |edges| && edges[i] == e;
      assert PublicEdges(edges)[i] == PublicEdge(e);
    }
    forall m | m in PublicEdges(edges) ensures exists e :: e in edges && m == PublicEdge(e) {
      var i :| 0 <= i < |edges| && PublicEdges(edges)[i] == m;
      assert edges[i] in edges;
    }
  }

  function Kept(items: seq<string>, ids: set<string>): seq<string> {
    Filter(items, (item: string) => item in ids)
  }

  /** The value left under a key, if any is. */
  function Cleaned(key: string, value: Value, ids: set<string>, semanticTargets: bool): Option<Value> {
    if key !in REFERENCE_KEYS then Some(value)
    else match value
      case Items(items) => if Kept(items, ids) == [] then None else Some(Items(Kept(items, ids)))
      case Text(text) =>
        if text in ids || (semanticTargets && key in TARGET_KEYS && IsSemantic(text)) then Some(value) else None
      case Opaque => Some(value)
  }

  function Sanitize(p: Props, ids: set<string>, semanticTargets: bool): Props {
    map k | k in p && Cleaned(k, p[k], ids, semanticTargets).Some? :: Cleaned(k, p[k], ids, semanticTargets).value
  }

  /** The record edited key by key on a copy, in any order of the keys. */
  method SanitizeReferences(p: Props, ids: set<string>, semanticTargets: bool) returns (sanitized: Props)
    ensures sanitized == Sanitize(p, ids, semanticTargets)
  {
    sanitized := p;
    var keys := REFERENCE_KEYS * p.Keys;
    ghost var done: set<string> := {};
    while keys != {}
      invariant done + keys == REFERENCE_KEYS * p.Keys && done !! keys
      invariant forall k :: k in sanitized <==> k in p && (k in done ==> Cleaned(k, p[k], ids, semanticTargets).Some?)
      invariant forall k :: k in sanitized ==>
        sanitized[k] == if k in done then Cleaned(k, p[k], ids, semanticTargets).value else p[k]
      decreases keys
    {
      var key :| key in keys;
      keys := keys - {key};
      done := done + {key};
      match sanitized[key]
      case Items(items) =>
        var filtered := Kept(items, ids);
        if filtered != [] {
          sanitized := sanitized[key := Items(filtered)];
        } else {
          sanitized := sanitized - {key};
        }
      case Text(text) =>
        if text !in ids && !(semanticTargets && key in TARGET_KEYS && IsSemantic(text)) {
          sanitized := sanitized - {key};
        }
      case Opaque =>
    }
    forall k | k in p && k !in done ensures Cleaned(k, p[k], ids, semanticTargets) == Some(p[k]) {}
  }

  /** Every reference that stays names a returned node, apart from semantic targets where those are shown. */
  ghost predicate ReferencesWithin(p: Props, ids: set<string>, semanticTargets: bool) {
    forall k :: k in p && k in REFERENCE_KEYS ==>
      && (p[k].Text? ==> p[k].text in ids || (semanticTargets && k in TARGET_KEYS && IsSemantic(p[k].text)))
      && (p[k].Items? ==> p[k].items != [] && forall item :: item in p[k].items ==> item in ids)
  }

  /** What is left holds only allowed references, and a record that held only those is unchanged. */
  lemma SanitizeExact(p: Props, ids: set<string>, semanticTargets: bool)
    ensures ReferencesWithin(Sanitize(p, ids, semanticTargets), ids, semanticTargets)
    ensures ReferencesWithin(p, ids, semanticTargets) ==> Sanitize(p, ids, semanticTargets) == p
    ensures Sanitize(Sanitize(p, ids, semanticTargets), ids, semanticTargets) == Sanitize(p, ids, semanticTargets)
  {
    var q := Sanitize(p, ids, semanticTargets);
    SanitizeFixed(q, ids, semanticTargets);
    if ReferencesWithin(p, ids, semanticTargets) {
      SanitizeFixed(p, ids, semanticTargets);
    }
  }

  lemma SanitizeLeaves(p: Props, ids: set<string>, semanticTargets: bool, key: string)
    requires key !in REFERENCE_KEYS
    ensures Lookup(Sanitize(p, ids, semanticTargets), key) == Lookup(p, key)
  {
  }

  lemma SanitizeFixed(p: Props, ids: set<string>, semanticTargets: bool)
    requires ReferencesWithin(p, ids, semanticTargets)
    ensures Sanitize(p, ids, semanticTargets) == p
  {
    forall k | k in p ensures Cleaned(k, p[k], ids, semanticTargets) == Some(p[k]) {
      if k in REFERENCE_KEYS && p[k].Items? {
        KeptAll(p[k].items, ids);
      }
    }
  }

  lemma {:induction false} KeptAll(items: seq<string>, ids: set<string>)
    requires forall item :: item in items ==> item in ids
    ensures Kept(items, ids) == items
  {
    if items != [] {
      assert items == [items[0]] + items[1..];
      KeptAll(items[1..], ids);
    }
  }

  // ----- what a page record keeps of a stored one -----

  ghost predicate Internal(key: string) {
    || key == "factPayload" || key == "workspaceId" || key == "generationId" || key == "namespace"
    || key == "factId" || key == "sourceRevision" || (key != "" && key[0] == '_')
  }

  /** Properties that name other records; the last two name what an edge or a binding points at. */
  ghost predicate NamesRecords(key: string) {
    || key in {"provider_operation_id", "provider_endpoint_id", "provider_endpoint_reference",
               "caller_implementation_id", "implementation_id", "endpoint_id", "operation_id",
               "evidence_id", "evidence_ids"}
    || key in {"providerOperationId", "providerEndpointId", "providerEndpointReference",
               "callerImplementationId", "implementationId", "endpointId", "operationId",
               "evidenceId", "evidenceIds"}
    || key == "target_reference" || key == "targetReference"
  }

  ghost predicate StartsWith(text: string, prefix: string) {
    |prefix| <= |text| && text[..|prefix|] == prefix
  }

  /** A target named by what it means rather than by a node id. */
  ghost predicate ByMeaning(key: string, text: string) {
    && (key == "target_reference" || key == "targetReference")
    && (StartsWith(text, "spring-http:") || StartsWith(text, "feign-http:") || StartsWith(text, "dubbo-operation:")
        || StartsWith(text, "grpc-operation:") || StartsWith(text, "messaging-operation:"))
  }

  lemma InternalKeys(key: string)
    ensures IsPublicKey(key) <==> !Internal(key)
  {
    if key != "" && key[0] == '_' {
      assert "_" <= key;
    }
  }

  lemma RecordKeys(key: string)
    ensures key in REFERENCE_KEYS <==> NamesRecords(key)
  {
  }

  lemma TargetTexts(key: string, text: string)
    ensures key in TARGET_KEYS && IsSemantic(text) <==> ByMeaning(key, text)
  {
  }

  /** Of a list the allowed items stay, in their order and as often as they were there. */
  lemma KeptExact(items: seq<string>, item: string, ids: set<string>)
    ensures Kept([], ids) == []
    ensures Kept(items + [item], ids) == Kept(items, ids) + (if item in ids then [item] else [])
  {
    FilterConcat(items, [item], (x: string) => x in ids);
    assert [item][1..] == [];
  }

  /**
   A record on a page has the keys of the stored one that are not internal, except that a key naming
   records keeps only what the page shows: a list its allowed items if any, a text only if allowed or,
   with semantic targets, named by meaning. Every other value is the stored one.
   */
  lemma RecordExact(p: Props, ids: set<string>, semanticTargets: bool, key: string)
    ensures var q := Sanitize(PublicProps(p), ids, semanticTargets);
            && (key in q
                <==> && key in p && !Internal(key)
                     && (NamesRecords(key) && p[key].Items? ==> exists item :: item in p[key].items && item in ids)
                     && (NamesRecords(key) && p[key].Text? ==>
                           p[key].text in ids || (semanticTargets && ByMeaning(key, p[key].text))))
            && (key in q ==>
                  q[key] == if NamesRecords(key) && p[key].Items? then Items(Kept(p[key].items, ids)) else p[key])
  {
    InternalKeys(key);
    RecordKeys(key);
    if key in p && p[key].Text? { TargetTexts(key, p[key].text); }
    hide INTERNAL_KEYS, REFERENCE_KEYS, TARGET_KEYS, IsSemantic, IsPublicKey, Internal, NamesRecords, ByMeaning;
    if key in p && p[key].Items? {
      var items := p[key].items;
      assert Kept(items, ids) != [] ==> Kept(items, ids)[0] in Kept(items, ids);
    }
  }
}
