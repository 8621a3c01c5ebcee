# Verified model of the workspace graph, impact, clustering and lookup cores

This project models the parts of the system that decide what a caller sees, what a change reaches, how
entities fall into modules, and how capabilities are traced to code, and proves what they promise. Code
that computes by changing things step by step is modelled by methods with loops, or by classes where the
original keeps state in objects. Each such method is proved equal to a specification function, and the
theorems are lemmas about those functions.

**Workspace graph queries.** One query authorizes the caller, filters the stored graph by repository,
narrows it to an operation, sorts, cuts, pages, sanitizes references and mints a cursor. `ServiceGraph`
holds the records and the visibility filter; `Authorization` and `Cursor` (over `Base64`) the two gates;
`Traversal` the bounded breadth-first walk as a state machine with its queue loop; `DiscoveryOrder` which
nodes truncation keeps; `Transposition` its reversal; `EndpointNeighborhood` the endpoint closure;
`References` the sanitizer; `QueryService` the whole query and `QueryExact` what it shows, record by
record. `CursorRun` follows a run of cursors from the first page to the last, `PageScope` says what a
page may contain, and `PageIndependence` what it depends on.

**Impact of a change.** `ImpactSearch` holds the layered search and, apart from it, the walks that count;
the main theorem compares the two. `RelationCase` fixes scores and labels on the tables and shows that
the spelling of relation types does not matter. `DecaySchedule` settles for which decay schedules the
pruning is sound: the search is optimal on every graph if and only if decays never rise from the second
layer to the first zero, and for every schedule that rises a graph is built on which a walk is lost. The
default schedule 1.0, 0.6, 0.3 falls. `ImpactPropagator` holds the loops, the merge, and the report as a
whole.

**Modules.** `EntityGraph` builds the neighbour sets, `LabelPropagation` is the asynchronous sweep with
the count of agreeing edges as its potential, `Communities` groups labels and measures cohesion, and
`ModuleClustering` is the run from rows to clusters. The docstring of the label sweep says that ties go
to the lexicographically smallest label; the code takes the first label met among the sorted neighbours.
The model follows the code; `LabelTies` says exactly when the two agree and gives a graph on which they
do not.

**Smaller cores.** `NgqlLiteral` is the string escaper; `CircuitBreaker` and `FunctionRunner` are the
retrying runner with its breaker, on a clock given by the calls; `BusinessEntry`, `RealizationLookup` and
`LookupAssembly` take candidate capabilities to a lookup result, `StoredRecords` says which stored fields
count, `AssemblyExact` tells the assembly of any finding entry by entry, and `LookupExact` traces status,
reasons and evidences of a result back to what is stored.

**Exceptions nothing catches.** Two results hold only under conditions the code does not check, and are
stated with them. A retry delay that is negative or too long makes the sleep raise inside the exception
handler, so the failure is never recorded: `ClosedExactlyWhenRecorded` gives the policies for which the
breaker counts every failure. A stored line text of more than 4300 digits makes the conversion to an
integer raise (the interpreter's default limit), and a metadata text may make the JSON reader raise
something other than its own error, as an integer that long or deep nesting does: `FindAnswersExactly`
gives the stored contents for which a business-entry lookup has a result.

`Collections`, `Ordering` (string order and a stable sort), `Texts` and `Wrappers` are shared helpers.

## Assumptions

- Every stored node has an id and every edge an id and two ends. Node ids and edge ids are strings,
  unique in the stored graph and ordered as Python orders strings, by code point. A request has the
  bounds its constructor checks.
- JSON text is an encoding that `json.loads` undoes, and the signature is a function of the payload with
  a 32-byte result (section 2 of RFC 2104); both are fields of `Signer`, and nothing more is used of them.
- The stored graph, the registry of grants and generations, the clock and the outcome of each attempt are
  values or functions handed to the model.
- Scores, weights, decays, distances and delays are `real`.

## Model

| member | source | states |
|---|---|---|
| `Traversal.TraverseGraph` | src/ontoagent/execution/workspace_service_graph_query.py:276-320 | the queue loop with its frontier, selected set and traversed edges computes exactly `Traverse`, the run of a small search machine, for every graph with unique edge ids; what that run keeps and in what order is fixed by `TraversalNodes`, `TraversalEdges`, `TraversalDirection` and `TruncationWalkOrder`, on the sources, targets and ids of the edges |
| `Traversal.Adjacency` | src/ontoagent/execution/workspace_service_graph_query.py:289-295 | the adjacency loop gives each node, in the order of the list it is given, exactly the edges whose source (target when reversed) it is and whose two ends are among the given nodes |
| `Traversal.Expand` | src/ontoagent/execution/workspace_service_graph_query.py:304-310 | one round of the inner loop: every edge out of a node is recorded, and its far end is selected and queued unless it is known or the limit is reached |
| `Traversal.StepKeeps` | src/ontoagent/execution/workspace_service_graph_query.py:300-310 | the loop invariant survives every step: the queue holds two neighbouring distances in order, recorded distances are shortest distances, completed levels are complete unless the limit is reached |
| `Traversal.RunKeeps` | src/ontoagent/execution/workspace_service_graph_query.py:300-310 | from any state that meets the invariant the loop ends with an empty queue and the invariant still true |
| `Traversal.RecordedDistances` | src/ontoagent/execution/workspace_service_graph_query.py:297-310 | every recorded distance is the true shortest directed distance from the root and at most `depth` |
| `Traversal.TraversalNodes` | src/ontoagent/execution/workspace_service_graph_query.py:297-320 | the selected nodes lie in the ball of radius `depth` around the root and number min(`node_limit`, size of the ball) |
| `Traversal.TruncationNearestFirst` | src/ontoagent/execution/workspace_service_graph_query.py:297-310 | a node left out is no nearer to the root than any node kept, and one within `depth` is left out only when exactly `node_limit` nodes are kept |
| `Traversal.TraversalEdges` | src/ontoagent/execution/workspace_service_graph_query.py:302-320 | the edges returned are exactly the edges with both ends selected whose source (target when reversed) is nearer than `depth`, once each, ascending by id in code-point order |
| `Traversal.TraversalDirection` | src/ontoagent/execution/workspace_service_graph_query.py:293-310 | every selected node but the root is the target (source when reversed) of a returned edge whose other end is exactly one hop nearer |
| `DiscoveryOrder.TruncationWalkOrder` | src/ontoagent/execution/workspace_service_graph_query.py:290-310 | which of the nodes at one distance a truncated traversal keeps: comparing walks edge id by edge id, every walk to a missed node comes after some walk, as long, to each node kept at that distance |
| `DiscoveryOrder.NeighboursInIdOrder` | src/ontoagent/execution/workspace_service_graph_query.py:290-310 | of the root's neighbours those over the smallest edge ids are kept: a missed one hangs on a greater id than some edge to each kept one |
| `Traversal.DistanceDual` | src/ontoagent/execution/workspace_service_graph_query.py:289-310 | b is k hops along the edges from a exactly when a is k hops against them from b |
| `Traversal.ImpactDual` | src/ontoagent/execution/workspace_service_graph_query.py:276-320 | when both balls fit the limit, b is among the dependencies of a exactly when a is among the impact of b, at the same distances |
| `Transposition.ReverseIsTransposed` | src/ontoagent/execution/workspace_service_graph_query.py:289-310 | the reverse traversal is the forward traversal of the graph with every edge turned round, node for node and edge for edge, truncation included |
| `EndpointNeighborhood.EndpointMethodGraph` | src/ontoagent/execution/workspace_service_graph_query.py:323-394 | the seeding loop and the `while changed` loop compute exactly `Neighborhood`, and terminate |
| `EndpointNeighborhood.SaturateLeast` | src/ontoagent/execution/workspace_service_graph_query.py:367-388 | the grown set is closed under the two edge rules and lies inside every closed set above its start |
| `EndpointNeighborhood.NeighborhoodLeast` | src/ontoagent/execution/workspace_service_graph_query.py:342-394 | the nodes returned are the least set that holds the endpoint and its seeded methods and is closed under the two edge rules; the edges returned are exactly those inside it |
| `EndpointNeighborhood.NeighborhoodExact` | src/ontoagent/execution/workspace_service_graph_query.py:323-394 | on the stored records: a node is returned exactly when it lies in every set that holds the endpoint and the records of the nine method kinds that refer to it by one of the eight reference keys, and that follows edges to method kinds and back from them, but not back from an implementation to a record that refers to the endpoint; without an `Endpoint` record of that id nothing is returned |
| `EndpointNeighborhood.GrowOrderFree` | src/ontoagent/execution/workspace_service_graph_query.py:361-388 | the set does not depend on the order of the nodes or edges |
| `ServiceGraph.RepoFiltersCover` | src/ontoagent/execution/workspace_service_graph_query.py:256-273 | the repository filters together show exactly the unfiltered nodes and the unfiltered edges that name a repository; an unauthorized filter shows nothing |
| `ServiceGraph.ByIdLast` | src/ontoagent/execution/workspace_service_graph_query.py:264 | of records with one id the last is the one found under it |
| `ServiceGraph.FilterExact` | src/ontoagent/execution/workspace_service_graph_query.py:256-273 | record by record: without a filter the nodes of an authorized repository and the edges that name only authorized ones; under an authorized filter the edges among these that name it, and the nodes that lie in it or are an end of such an edge; repositories are read from `repo_id`, else `repoId`, and an edge names its own list or else those of its visible ends |
| `QueryService.FilterGraphUnique` | src/ontoagent/execution/workspace_service_graph_query.py:256-273 | filtering keeps node ids and edge ids unique |
| `Base64.Base64RoundTrip` | src/ontoagent/execution/workspace_service_graph_query.py:237-243 | unpadded base64url (section 5 of RFC 4648) decodes to the bytes it was made from once the padding is rebuilt from the length |
| `Base64.ScanEncode` | src/ontoagent/execution/workspace_service_graph_query.py:237-243 | the decoder reads back any padded encoding, whatever the length modulo three, and does not look at what follows padding |
| `Base64.ScanPassesOver` | src/ontoagent/execution/workspace_service_graph_query.py:243 | a character outside the alphabet is passed over, wherever it stands |
| `Base64.AlphabetExact` | src/ontoagent/execution/workspace_service_graph_query.py:237-243 | values are written in the URL-safe alphabet of RFC 4648, section 5, and read from it or from the standard `+` and `/` |
| `Base64.PaddingExact` | src/ontoagent/execution/workspace_service_graph_query.py:243 | the padding fills the text up to the next multiple of four |
| `Base64.AsciiOnly` | src/ontoagent/execution/workspace_service_graph_query.py:243 | a cursor with a character outside ASCII is not decoded |
| `Cursor.CursorRoundTrip` | src/ontoagent/execution/workspace_service_graph_query.py:234-253 | a cursor decodes to its offset under the context it was minted for and is refused under every other |
| `Cursor.CursorAccepted` | src/ontoagent/execution/workspace_service_graph_query.py:239-253 | a cursor is accepted exactly when it decodes to a payload followed by that payload's own 32-byte tag and the payload holds the context and the offset |
| `Cursor.MintNonblank` | src/ontoagent/execution/workspace_service_graph_query.py:234-237 | a minted cursor passes the nonblank checks of requests and pages |
| `QueryExact.ContextExact` | src/ontoagent/execution/workspace_service_graph_query.py:206-232 | two requests share a cursor context exactly when they are the same operation with the same argument, by the same principal, for the same workspace, generation and repository digest, with the same filter, page size, depth and node limit |
| `QueryExact.NamesExact` | src/ontoagent/execution/workspace_service_graph_query.py:56-113 | the names under which cursor contexts carry the operations |
| `QueryExact.NarrowExact` | src/ontoagent/execution/workspace_service_graph_query.py:56-176 | what each operation leaves of the visible graph: by `node_type`, by `canonical_key` and `role`, by the edges that touch an id with their ends, by `relation_type`, or the traversal or neighbourhood of the id |
| `QueryExact.ViewExact` | src/ontoagent/execution/workspace_service_graph_query.py:177-189 | the public records in ascending id order, of the nodes the first up to the node limit: a node left out comes after every node that is in |
| `QueryExact.PageExact` | src/ontoagent/execution/workspace_service_graph_query.py:180-204 | a page shows exactly the edges that leave its primary nodes and end in the view, and exactly the primary nodes and the ends of those edges, in ascending id order; its visibility is full exactly for a full grant, and there is a next cursor, for the next offset, exactly when nodes remain |
| `QueryExact.QueryExactly` | src/ontoagent/execution/workspace_service_graph_query.py:128-146 | a page is given exactly for a nonblank argument, an authorized caller, a cursor of this very context and a readable generation; the errors for each other case |
| `QueryExact.PageServed` | src/ontoagent/execution/workspace_service_graph_query.py:137-204 | the page is the cut, at the cursor's offset, of what the operation leaves of the graph filtered to the authorized repositories |
| `CursorRun.PageCountRoundsUp` | src/ontoagent/execution/workspace_service_graph_query.py:180-198 | the number of pages is n / page_size rounded up, and one for an empty result |
| `CursorRun.FollowIsCuts` | src/ontoagent/execution/workspace_service_graph_query.py:141-198 | each request that follows `next_cursor` serves the next cut of the same ordered records: the offset survives the cursor text |
| `CursorRun.CursorRunLossless` | src/ontoagent/execution/workspace_service_graph_query.py:154-198 | following `next_cursor` from the start gives `Lossless` pages: ceil(n / page_size) of them (one for none), the last alone without a cursor, every ordered node primary exactly once and shown on its page, every edge closed over the ordered nodes delivered exactly once |
| `CursorRun.TraversalNotCut` | src/ontoagent/execution/workspace_service_graph_query.py:154-189 | for a traversal the node-limit cut of the page code removes nothing and every traversed edge is closed |
| `CursorRun.TraversalRunWhole` | src/ontoagent/execution/workspace_service_graph_query.py:154-198 | a cursor run of `dependencies` or `impact` delivers the whole traversal of the visible graph, nodes and edges |
| `Authorization.AuthorizedScope` | src/ontoagent/execution/workspace_query_authorization.py:39-69 | an authorization names the active generation, only repositories frozen in it, and for a filtered grant exactly the granted ones |
| `Authorization.AuthorizedExactly` | src/ontoagent/execution/workspace_query_authorization.py:29-69 | a query is authorized exactly when its arguments are not blank, the principal holds a grant for the workspace, the workspace exists, the stored active generation is the one asked for if any is, and a filtered grant names only its repositories; which refusal is given for which failure |
| `References.SanitizeReferences` | src/ontoagent/execution/workspace_service_graph_query.py:440-463 | the loop over the reference keys edits the copy to exactly `Sanitize`, in any order of the keys |
| `References.SanitizeExact` | src/ontoagent/execution/workspace_service_graph_query.py:440-463 | every string or list reference left names an allowed node, apart from semantic targets when they are included; a record that was clean is unchanged; sanitizing twice changes nothing |
| `References.RecordExact` | src/ontoagent/execution/workspace_service_graph_query.py:402-463 | key by key what a page record keeps of a stored one: no internal key, every other value as stored, except that the keys naming records keep a list's allowed items and a text only when it is allowed or, under full visibility, names a target by meaning |
| `References.KeptExact` | src/ontoagent/execution/workspace_service_graph_query.py:447-449 | the allowed items of a list stay in their order and number |
| `PageScope.PageClosedInScope` | src/ontoagent/execution/workspace_service_graph_query.py:179-195 | both ends of every page edge are page nodes; every page node lies in a repository frozen in the active generation and in a filtered grant; every reference kept names a page node, apart from semantic targets under full visibility |
| `PageIndependence.PagesVisibleOnly` | src/ontoagent/execution/workspace_service_graph_query.py:115-204 | without a repository filter two stored graphs that agree on the allowed nodes and the edges joining two of them give the same pages, cursors and errors for every operation; for `evidence` and `build_task` they must agree on the edges with one end among the allowed nodes as well |
| `PageIndependence.SaturateJoined` | src/ontoagent/execution/workspace_service_graph_query.py:367-388 | the endpoint neighbourhood looks only at edges joining two visible nodes |
| `PageIndependence.UngrantedPages` | src/ontoagent/execution/workspace_query_authorization.py:39-41 | a query without a grant gets the same refusal whatever the workspace, its generations and its graph hold |
| `PageIndependence.ActiveGenerationPages` | src/ontoagent/execution/workspace_query_authorization.py:45-57 | a query that names a generation is answered only if that is the active one, and then exactly as the query that names none, cursors included |
| `ImpactPropagator.Bfs` | src/ontoagent/pipeline/impact_propagator.py:280-365 | the layered loop with its early exits computes exactly `Search` |
| `ImpactPropagator.ExpandNode` | src/ontoagent/pipeline/impact_propagator.py:316-352 | the loop over the relations of one frontier node makes exactly the hops of `HopAll`; their scores and labels are fixed by `WalkScore` |
| `RelationCase.WalkScore` | src/ontoagent/pipeline/impact_propagator.py:205-221 | a walk is worth the table weight, for the change, of the lower-case spelling of its last relation times the decay of its length, zero where a table says nothing, and its labels are the lower-case spellings of its relations |
| `RelationCase.SpellingDoesNotMatter` | src/ontoagent/pipeline/impact_propagator.py:316-352 | two stores whose relation types differ only in the case of ASCII letters give the same records, scores and paths |
| `RelationCase.CallerReported` | src/ontoagent/pipeline/impact_propagator.py:316-352 | a stored CALLS relation reports the caller of a changed body with score 0.7 under the path calls |
| `ImpactSearch.SearchOptimal` | src/ontoagent/pipeline/impact_propagator.py:280-365 | every record shows its stored node with the severity of its score and stands for an admissible walk of exactly its depth, against the relations when looking for dependents and along them otherwise, with the labels of its path and the score of its last hop; when the decays from the second layer on never rise and the threshold is positive, no admissible walk within the depth limit is worth more than the best record of its end |
| `ImpactSearch.WalkBound` | src/ontoagent/pipeline/impact_propagator.py:329-352 | pruning loses nothing: the end of every admissible walk was met no later than the walk arrives, with a score at least as good |
| `DecaySchedule.OptimalExactlyWhenDecayFalls` | src/ontoagent/pipeline/impact_propagator.py:205-221 | for non-negative decays: the pruned search is optimal for every graph, weight table, positive threshold, change type, direction and source if and only if the decay schedule never rises between the second layer and its first zero |
| `DecaySchedule.RisingScheduleLosesWalk` | src/ontoagent/pipeline/impact_propagator.py:329-331 | for every schedule that rises from layer k to k + 1 a graph whose search misses a better walk |
| `ImpactPropagator.MergeImpacts` | src/ontoagent/pipeline/impact_propagator.py:261-278 | the dictionary loop and the final sort compute exactly `Merge` |
| `ImpactPropagator.MergeExact` | src/ontoagent/pipeline/impact_propagator.py:270-278 | merging keeps one record per node and direction, taken from the input, with the best score of its key, in descending order |
| `ImpactPropagator.MergeKeepsFirst` | src/ontoagent/pipeline/impact_propagator.py:270-278 | of several best records of one node and direction the first is kept |
| `Ordering.SortStable` | src/ontoagent/pipeline/impact_propagator.py:261-278 | sorting keeps elements that tie in the order they came in |
| `Ordering.StrLeExact` | src/ontoagent/execution/workspace_service_graph_query.py:290 | ids compare as texts do: a prefix first, otherwise by the first differing code point |
| `ImpactPropagator.MergeIdempotent` | src/ontoagent/pipeline/impact_propagator.py:270-278 | merging a merged list changes no record |
| `ImpactPropagator.MergeOfMerged` | src/ontoagent/pipeline/impact_propagator.py:390-426 | merging groups that were merged one by one gives the same key-to-record map as one flat merge, ties included |
| `ImpactPropagator.ComputeImpact` | src/ontoagent/pipeline/impact_propagator.py:367-390 | the loop over the sources returns the merge of both searches from each of them |
| `ImpactPropagator.CollectKinds` | src/ontoagent/pipeline/impact_propagator.py:406-412 | the loops over changed files give each node the change type of the last file that lists it, in order of first mention |
| `ImpactPropagator.KindsExact` | src/ontoagent/pipeline/impact_propagator.py:406-412 | each node of the changed files has the change of the last file that lists it, and no other node has any |
| `ImpactPropagator.KindsOrder` | src/ontoagent/pipeline/impact_propagator.py:406-412 | the nodes of the first files come first, and those of one file in its order |
| `ImpactPropagator.Propagate` | src/ontoagent/pipeline/impact_propagator.py:392-436 | the loop over the change types returns the merge of the per-type merges |
| `ImpactPropagator.PropagateIsOneMerge` | src/ontoagent/pipeline/impact_propagator.py:417-426 | the report holds exactly the records of a single merge over everything found |
| `ImpactPropagator.AllFoundMember` | src/ontoagent/pipeline/impact_propagator.py:417-423 | everything found is what the two searches from each changed node find with that node's change type |
| `ImpactPropagator.PropagateOptimal` | src/ontoagent/pipeline/impact_propagator.py:392-436 | the report has one record per node and direction, best first, each an admissible walk from a changed node, and no admissible walk from a changed node is worth more than the record of its end |
| `EntityGraph.LoadGraph` | src/ontoagent/pipeline/module_clustering.py:65-131 | two entities are neighbours exactly when a relation joins them, either way round, or they share a file of at most thirty entities; the graph is symmetric |
| `EntityGraph.LoadExact` | src/ontoagent/pipeline/module_clustering.py:77-88 | just the ids of the rows are loaded, each with the file of its last row, in the order in which they are first seen |
| `EntityGraph.AddRelations` | src/ontoagent/pipeline/module_clustering.py:98-105 | relations with an end outside the entities are dropped and the others join both ways |
| `EntityGraph.GroupByFile` | src/ontoagent/pipeline/module_clustering.py:107-113 | each named file holds its entities in order, and files without a name none |
| `EntityGraph.JoinAll` | src/ontoagent/pipeline/module_clustering.py:127-129 | the pairs loop joins every two different entities of a file and nothing else |
| `LabelPropagation.PropagateLabels` | src/ontoagent/pipeline/module_clustering.py:133-189 | early exit or not, the labels are those of all `max_iterations` sweeps; after an early exit they are stable; no internal edge has been lost on balance |
| `LabelPropagation.RunRounds` | src/ontoagent/pipeline/module_clustering.py:165-187 | the round loop with its convergence check stands where the full number of rounds would |
| `LabelPropagation.SweepNodes` | src/ontoagent/pipeline/module_clustering.py:169-183 | one sweep in sorted order, each node reading the labels as they stand |
| `LabelPropagation.UpdateKeepsEdges` | src/ontoagent/pipeline/module_clustering.py:177-183 | a single label update never lowers the number of undirected edges whose ends share a label |
| `LabelPropagation.RoundsKeepEdges` | src/ontoagent/pipeline/module_clustering.py:165-187 | nor does any number of rounds, from any labelling |
| `LabelPropagation.StableRounds` | src/ontoagent/pipeline/module_clustering.py:185-187 | a round that changes nothing makes every later round change nothing |
| `LabelPropagation.UnchangedIsStable` | src/ontoagent/pipeline/module_clustering.py:185-187 | after a round that changes nothing, every node would choose its label again |
| `LabelPropagation.RoundsEnd` | src/ontoagent/pipeline/module_clustering.py:165-187 | after any number of rounds the labels are stable unless every single round has changed something |
| `LabelPropagation.CommunitiesConnected` | src/ontoagent/pipeline/module_clustering.py:163-189 | a node's label is always reachable from it, so nodes of one label are joined by a path |
| `LabelPropagation.IsolatedSingleton` | src/ontoagent/pipeline/module_clustering.py:172-174 | a node without neighbours keeps its own label and nobody else carries it |
| `LabelTies.TieGoesToFirst` | src/ontoagent/pipeline/module_clustering.py:177-183 | an update takes the first of the tied labels among those of the neighbours in id order |
| `LabelTies.SmallestChosenExactly` | src/ontoagent/pipeline/module_clustering.py:155-183 | an update takes the smallest of the tied labels, as documented, exactly when every other tied label is met only after it |
| `LabelTies.TieNotSmallest` | src/ontoagent/pipeline/module_clustering.py:155-183 | on the graph of the relations a-c, a-x, aa-b, b-x the first sweep gives x the label c although b is tied with it and smaller, against the docstring |
| `LabelTies.SortSetIs` | src/ontoagent/pipeline/module_clustering.py:169-177 | nodes and neighbours are walked in id order: a sorted list without repeats is what its set sorts to |
| `Communities.GroupByLabel` | src/ontoagent/pipeline/module_clustering.py:299-302 | the grouping loop puts every entity in the list of its label, in order |
| `Communities.CommunitiesPartition` | src/ontoagent/pipeline/module_clustering.py:299-317 | every entity is in exactly the community of its label, none is empty or repeats an entity, and the sizes add up to the number of entities |
| `Communities.CountRow` | src/ontoagent/pipeline/module_clustering.py:215-220 | the inner loop counts the later neighbours of one entity, in any order of the neighbour set |
| `Communities.CountEdges` | src/ontoagent/pipeline/module_clustering.py:212-220 | the counter ends at the number of undirected edges inside the list, each counted once |
| `Communities.ComputeCohesion` | src/ontoagent/pipeline/module_clustering.py:191-223 | cohesion is internal edges over possible edges, within [0, 1], 0 below two entities, and 1 for two or more exactly when they form a clique |
| `Communities.CohesionOrderFree` | src/ontoagent/pipeline/module_clustering.py:215-222 | the count is the same for every order of the same entities |
| `ModuleClustering.DetectModules` | src/ontoagent/pipeline/module_clustering.py:270-320 | two entities share a cluster exactly when they carry the same label after 100 rounds of propagation, and those labels are stable unless each of the 100 rounds changed one; the clusters split the entities, their sizes add up, each lies in one connected component with its exact cohesion, and an isolated entity is alone in its own |
| `NgqlLiteral.PassesAreEscape` | src/ontoagent/store/nebula_store.py:110-114 | the five replacement passes come to one escape of each character |
| `NgqlLiteral.LiteralRoundTrip` | src/ontoagent/store/nebula_store.py:110-114 | a left-to-right literal reader returns the original string and stops where the literal ends, whatever text follows |
| `NgqlLiteral.LiteralInjective` | src/ontoagent/store/nebula_store.py:110-114 | different strings have different literals, and none begins another's |
| `NgqlLiteral.NoBareQuote` | src/ontoagent/store/nebula_store.py:110-114 | every quote in the literal body is escaped by an odd run of backslashes, and the body ends in none that is open |
| `CircuitBreaker.Breaker.constructor` | src/ontoagent/execution/circuit_breaker.py:9-14 | a new breaker is closed with no failures |
| `CircuitBreaker.Breaker.ReadState` | src/ontoagent/execution/circuit_breaker.py:16-20 | reading the state turns open into half open once the timeout has passed, and changes nothing else |
| `CircuitBreaker.Breaker.IsOpen` | src/ontoagent/execution/circuit_breaker.py:22-24 | the same state change, seen as a flag |
| `CircuitBreaker.Breaker.RecordSuccess` | src/ontoagent/execution/circuit_breaker.py:30-32 | success closes the breaker and clears the count |
| `CircuitBreaker.Breaker.RecordFailure` | src/ontoagent/execution/circuit_breaker.py:34-38 | failure counts, stamps the time, and opens at the threshold |
| `FunctionRunner.Runner.Run` | src/ontoagent/execution/function_runner.py:69-92 | a run moves only the breaker of its name, makes exactly the attempts its outcomes call for, sleeps the delay 2^(k-1) - 1 times for k attempts, and returns the last result, a failure with the last error, the fallback, the rejection or the unknown-name error; it returns nothing where a sleep raises; without a policy there are two retries with delays of 1 and 2 seconds, and the breaker opens at five failures for 30 seconds |
| `FunctionRunner.Runner.RunAttempts` | src/ontoagent/execution/function_runner.py:78-92 | the retry loop: attempts, total sleep, success or failure recorded once, and nothing recorded when a sleep raises out of the handler |
| `FunctionRunner.Runner.EnsureBreaker` | src/ontoagent/execution/function_runner.py:69 | a breaker is made on first use and kept from then on |
| `FunctionRunner.AttemptsExact` | src/ontoagent/execution/function_runner.py:81-89 | all attempts before the last raised and were slept after; the last returned, or was the last allowed, or raised before a sleep that raises |
| `FunctionRunner.ClosedBelowThreshold` | src/ontoagent/execution/circuit_breaker.py:16-38 | over every run with a threshold of at least one, the breaker is closed exactly when fewer failures than the threshold were recorded since the last success |
| `FunctionRunner.ClosedExactlyWhenRecorded` | src/ontoagent/execution/function_runner.py:81-91 | closed means fewer unsuccessful executions than the threshold, over every run of calls, if and only if no sleep the policy can ask for raises |
| `FunctionRunner.NeverAbortsMeans` | src/ontoagent/execution/function_runner.py:88-89 | no sleep raises exactly when nothing is retried, or there are at most 1024 retries, the delay is not negative and the last sleep is shorter than 2^63 nanoseconds |
| `FunctionRunner.AbortsNeverOpen` | src/ontoagent/execution/function_runner.py:81-91 | under any other policy a function that always raises never opens its breaker |
| `FunctionRunner.OpenRejects` | src/ontoagent/execution/function_runner.py:71-76 | until the timeout has passed every call is rejected and the breaker stays put |
| `FunctionRunner.ProbeExactlyAfterTimeout` | src/ontoagent/execution/function_runner.py:71-81 | on a monotone clock no attempt is made from an opening failure until the timeout has passed, and the first call after that is attempted |
| `FunctionRunner.ProbeDecides` | src/ontoagent/execution/circuit_breaker.py:16-38 | a half-open probe closes the breaker on success, opens it again on failure, and leaves it half open when a sleep aborts it |
| `BusinessEntry.EndpointAccepted` | src/ontoagent/domain/business_entry.py:45-126 | extraction raises exactly when reading a nonblank metadata text does; otherwise the endpoint passes the evidence constructor and is empty exactly when a reason was given |
| `BusinessEntry.EndpointExact` | src/ontoagent/domain/business_entry.py:36-69 | the endpoint is just the fields that count for the category and hold a text that is not blank, stripped, in the order of their names; the reason given for each way of finding none |
| `BusinessEntry.EntryAccepted` | src/ontoagent/domain/business_entry.py:147-162 | an entry is accepted exactly with texts that are not blank, a path that is not blank if there is one, and positive lines in order |
| `BusinessEntry.EvidenceAcceptedExactly` | src/ontoagent/domain/business_entry.py:183-201 | an evidence likewise, with a score in [0, 1] and an endpoint of nonblank pairs whose keys differ once stripped, which it shows stripped and in order |
| `Texts.StripExact` | src/ontoagent/pipeline/business_entry_repository.py:236-237 | stripping takes all white space off both ends and nothing else, and leaves nothing exactly of a blank text |
| `Texts.SpaceExact` | src/ontoagent/pipeline/business_entry_repository.py:236-237 | the characters that count as white space |
| `StoredRecords.RowExact` | src/ontoagent/pipeline/business_entry_repository.py:116-133 | a relation row leads to a target exactly when its source, type, target and, if one is asked for, generation fields say so |
| `StoredRecords.CapabilityExact` | src/ontoagent/pipeline/business_entry_repository.py:55-60 | a capability is a record that holds its five texts |
| `StoredRecords.EntryExact` | src/ontoagent/pipeline/business_entry_repository.py:169-207 | a code entity makes an entry exactly when it is the one named, of the repository and generation asked for, with usable fields and lines in order; every field of the entry is the stored one |
| `StoredRecords.DigitsExact` | src/ontoagent/pipeline/business_entry_repository.py:229-232 | a line text counts by the decimal places of its digits |
| `StoredRecords.GenerationTrimmed` | src/ontoagent/pipeline/business_entry_repository.py:151-156 | white space around the generation asked for changes nothing |
| `RealizationLookup.RealizationTargetIds` | src/ontoagent/pipeline/business_entry_repository.py:105-133 | the loop over the relations computes exactly the distinct targets and the corruption flag |
| `RealizationLookup.FindRealizations` | src/ontoagent/pipeline/business_entry_repository.py:37-97 | the candidate loop computes exactly `Lookup` |
| `RealizationLookup.DedupPrefix` | src/ontoagent/pipeline/business_entry_repository.py:142-148 | candidate ids keep the order in which they first occur |
| `RealizationLookup.InspectCandidate` | src/ontoagent/pipeline/business_entry_repository.py:46-74 | the checks on one candidate, in their order |
| `RealizationLookup.InspectTargets` | src/ontoagent/pipeline/business_entry_repository.py:76-95 | the loop over the targets of one candidate |
| `RealizationLookup.TargetsClean` | src/ontoagent/pipeline/business_entry_repository.py:114-133 | a capability's targets are just its entry with nothing corrupt exactly when every relation row is clean |
| `RealizationLookup.UnreadableMeans` | src/ontoagent/pipeline/business_entry_repository.py:176-233 | a code entity makes the lookup raise exactly when it is the one asked for, in this repository and generation, and a line text has more digits than the interpreter converts |
| `RealizationLookup.CandidateStep` | src/ontoagent/pipeline/business_entry_repository.py:46-95 | a candidate fails exactly when a read made for it fails or a line text it leads to does not convert; otherwise it adds the one entry it yields and a reason exactly when it does not resolve |
| `RealizationLookup.LookupGathers` | src/ontoagent/pipeline/business_entry_repository.py:37-97 | a lookup with good arguments succeeds exactly when every read answers and every line text reached converts; it then holds just the entries the candidates yield, and no reason exactly when all resolve |
| `RealizationLookup.EntriesFit` | src/ontoagent/pipeline/business_entry_repository.py:89-95 | the gathered entries are accepted by their constructor, of this repository, and one for each candidate that yields one |
| `LookupAssembly.CandidateDistances` | src/ontoagent/pipeline/business_entry_assembler.py:112-123 | the loop keeps the ids in order of first occurrence with their least distance |
| `LookupAssembly.CollectExact` | src/ontoagent/pipeline/business_entry_assembler.py:116-123 | each candidate id is held with its minimum distance and no other id is |
| `LookupAssembly.AssembleBusinessEntryLookup` | src/ontoagent/pipeline/business_entry_assembler.py:42-109 | the assembly loop computes exactly `Assemble`, constructor failures included; what it makes of any finding is fixed by `AssembleExact` and `AssembleRefuses` |
| `AssemblyExact.AssembleExact` | src/ontoagent/pipeline/business_entry_assembler.py:58-109 | for every finding, entry by entry: entries of another repository or of no candidate give only their reasons; of the others the first of each capability and code entity makes an evidence and gives the reasons of its metadata and path; the finding's reasons stay, none is given twice, the default reason is given exactly where there is neither evidence nor reason, and the status is the one due |
| `AssemblyExact.AssembleRefuses` | src/ontoagent/pipeline/business_entry_assembler.py:48-56 | a blank repository and a finding that mixes the unavailable reason with anything else are refused; an unavailable backend alone is passed on as such |
| `LookupAssembly.FindAnswersExactly` | src/ontoagent/pipeline/business_entry_assembler.py:58-109 | lookup followed by assembly gives a result, and one that meets the result invariants, if and only if every read made for a candidate answers, no code entity reached has a line text over the digit limit, and no metadata reached makes its reader raise; otherwise it fails for one of these three |
| `LookupAssembly.OverlongLineRaises` | src/ontoagent/pipeline/business_entry_repository.py:221-233 | stored content whose line text of more than 4300 digits makes the lookup raise though every read answers |
| `LookupAssembly.RaisingMetadataRaises` | src/ontoagent/domain/business_entry.py:50-53 | stored content whose metadata reader raises anything but a JSON error makes the assembly raise |
| `LookupAssembly.EvidencesOrdered` | src/ontoagent/pipeline/business_entry_assembler.py:60-109 | at most one evidence per capability, scored by one minus its minimum candidate distance kept within [0, 1], in order of first occurrence |
| `LookupExact.StatusExactly` | src/ontoagent/pipeline/business_entry_assembler.py:126-131 | an answered lookup is NOT_FOUND exactly when every candidate is absent or has clean relations that are empty or name an entry that is not stored (so too without candidates), and DEGRADED exactly when that fails and some candidate is not clean |
| `LookupExact.ReasonsExactly` | src/ontoagent/pipeline/business_entry_assembler.py:58-109 | the reasons of a result are exactly those that some candidate's stored facts or metadata give, reason by reason, and no_capability_match where there was no candidate |
| `LookupExact.EvidencesExact` | src/ontoagent/pipeline/business_entry_assembler.py:84-100 | every evidence shows the stored fields of the entry its candidate yields with the endpoint of its metadata, and every yielding candidate has one |
| `LookupAssembly.FoundExactly` | src/ontoagent/pipeline/business_entry_assembler.py:102-131 | there is a result and it is FOUND exactly when there are candidates and every one resolves cleanly with complete metadata |

## Left out

- Reading the stored graph, the registry and the business-entry backend: their answers are parameters, so faults of those stores other than a failed read are not modelled.
- HMAC, SHA-256 and JSON internals: the signature, the repository digest and the encoding are functions about which only the assumptions above are used.
- Floating-point rounding: scores, cohesion and delays are exact.
- Reference values in records other than strings and lists: `str()` of such a value as an endpoint token or list item is not modelled; list items are taken by their string form.
- Node records that are present but empty: the impact search treats them as absent, the model has no such record.
- `str.lower` outside ASCII: relation types are lowered letter by letter for A to Z.
- OptimalExactlyWhenDecayFalls: schedules with negative decays are not classified, because a factor below zero has no meaning in the source; `SearchOptimal` still holds for them when they meet its condition.
- PagesVisibleOnly: says nothing of pages with a repository filter, which also depend on edges that declare their repositories without joining two visible nodes.
- Mapping changed files to nodes and the timing field of the impact report: the mapping is a parameter of `Propagate`.
- Module naming, `save_modules` and `get_module_tree`: clusters are modelled without names, which can collide.
- The branches of the literal formatter for null, booleans, lists and dictionaries: only the string branch is modelled.
- The approval gate and the registry lookup in the function runner: a call is known or unknown, and approval has been given.
- A fallback that raises, and exceptions outside `Exception`, in the function runner: a fallback is the result it returns.
- The grammar of JSON: a metadata reader is a function from texts to an object, a refusal or an exception.
- Concurrent use of one breaker: calls of one runner follow one another.
- Retrieval of capability candidates: candidates and their distances are given.
- `cypher_adapter.py`, shape parsing, path compilation and decision fusing: their facts rest on single branches.
- Storage drivers, HTTP, command line, frontend, logging and metrics.
