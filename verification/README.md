# Verified models of the ledger's small algorithms

The repository keeps a tax ledger's evidence: documents, extracted rows, transactions and their
classifications, drawn as graphs, watched by a calendar and written to a journal. This project models
its stateful algorithms and proves what each is for.

| files | what they model |
|---|---|
| `OntologyModel`, `OntologyConfluence`, `PathQuery`, `AnswerOrder`, `Ontology` | the artifact and relation store: deduplicating sorted upserts and the depth-limited breadth-first query |
| `EvidenceNode`, `EvidenceIds`, `EvidenceValues`, `EvidenceReaders`, `EvidenceGraph`, `BuilderModel`, `BuilderProgress`, `BuilderEffects`, `EvidenceBuilder` | the evidence graph with its index and digraph, its builder, its store, and its three readers: tracer, gap scanner and badge |
| `DiagramText`, `DiagramSyntax`, `DiagramPrint`, `DiagramValues`, `ThresholdChain`, `DecisionIds`, `ChainWalks`, `ChainMeaning`, `DiagramBuild`, `DiagramMeaning`, `LikeNames`, `Diagram`, `Layout` | the compiler from diagram lines to a graph, and the level and lane layout |
| `Dates`, `Calendar` | the proleptic Gregorian calendar (section 3.2.1 of ISO 8601:2004) and the recurrence rules |
| `Neighbourhood` | the order-sensitive neighbourhood of the graph viewer's filters |
| `DatumAst`, `DatumSubsections`, `DslSymbols` | the section parser and the identifier scanner |
| `FluxCapacitor` | gate wiring and the bridge invariant |
| `Amounts`, `TransactionIds`, `Ingest` | idempotent ingest into journal and workbook projection |
| `Results`, `Sorting`, `Keyed`, `Texts`, `LetterCase` | what several of them share |

Objects that the repository updates in place are classes (`OntologySnapshot`, `EvidenceGraph`,
`EvidenceBuilder`, `Diagram`, `FluxCapacitor`, `MultiBridge`, `IngestedLedger`). Their methods run the
source's loops and are proved against functions on values; the theorems are about those functions.
Content hashes, the text form of numbers, and the classes of blank and alphabetic characters are
parameters, so the theorems hold for every choice of them. Where a theorem needs more (an injective
hash, `#` not being blank) it says so.

## Where the code and its promise differ

The model follows the code. For each of these a lemma says exactly when the promise is kept; the input
for which it is not is named in its condition or in a lemma of its own.

- Artifact and relation upserts depend on input order when two new inputs share an id with different
  contents (`ConfluentExactlyWhenConsistent`, `ClaimedIdsConflict`). Relation upserts also do when a
  batch has a relation to an unknown artifact and a new one between known artifacts: the new one is kept
  only when it comes first (`RelationsConfluentExactlyWhenConsistent`, `UnknownEndpointShows`).
- `ensure_extracted_rows` is documented as idempotent. It is not when the document id is unknown and
  is the id of a later row of the same call (`RowsTwiceExactly`, `RowsNotIdempotent`); ids of documents
  are never ids of rows (`DocumentIdsSettle`).
- `NodeId::node_type` reads two of the prefixes that `NodeId::new` writes as `Unknown`
  (`TypeInvertsNew`, which names both).
- Ids of evidence nodes are meant to identify their contents. The hashed text puts a line feed after each
  field, so a row's id is that of no other row exactly when none of its fields holds a line feed
  (`RowIdentifiedExactly`, `FedRowsCollide`).
- A threshold chain loops for ever when two of its decisions share an id: when two lines have the same
  threshold, such as `if x > 5 -> a` and `if x > 5 -> b`, or thresholds written alike up to the sign of
  an exponent (`CompilationFaithfulExactly`, `RepeatedThresholdCollides`, `ExponentsCollide`). Thresholds
  that are written without exponents and differently never do (`NumeralsFaithfulExactly`).
- Expressions that differ only in characters that ids cannot hold share decisions: of `if a.b > 5 -> x`
  and `if a_b > 5 -> y` the second leads to `x` (`DottedNamesMislead`). In the whole diagram a group of
  lines is led to its targets exactly when the false edges from its first decision end and, for each of
  its thresholds, the first decision on the way with a threshold no tighter has a first true edge to a
  target that a line with this threshold asks for (`DiagramMeansExactly`). A decision that another line
  has taken over does no harm when the walk goes past it (`TakenWithoutHarm`). A group's decisions are
  taken in turn exactly when no other line gets in first at one of them (`DiagramInTurnExactly`).
- `next_due` is documented as strictly later and as failing only for unsupported rules or impossible
  days. "Every 0 days" returns its start (`NextDueStrictlyAfter`), 29 February is found at most one year
  ahead (`AnnualExactly`, `LeapDayMissed`), and a quarter day in the January of the starting year is skipped
  (`QuarterlyExactly`, `JanuaryPaymentNeverDue`), so `events_due_on` never lists the January payment
  unless it falls on the 1st (`DueOnExactly`).
- `upcoming` is documented as listing all due dates within the horizon. It lists the first of each event,
  so it is complete exactly when no enabled event comes up a second time by then (`AgendaCompleteExactly`,
  `DailyListedOnce`). A horizon past the last date of the calendar is an empty window.
- A subsection is lost before the first section and when a `[name]` header is the next structural line
  (`SubsectionsExactly`, `NothingLostExactly`, `TomlHeaderDropsSubsection`,
  `SubsectionWithoutSectionIsLost`).
- When a batch repeats a new id, the journal takes the first row and the projection the last. They show
  the same rows exactly when those two are equal (`ProjectionMatchesJournalExactly`,
  `RunMatchesExactly`, `RepeatedRowsDisagree`).
- The separator of the transaction id's canonical text may occur inside a field. The id identifies a
  row's fields exactly when that text can be cut into normalised fields in one way only
  (`IdentifiesExactly`, `BarredRowsCollide`).
- A call is documented as a name immediately followed by an open parenthesis; blanks may come between
  (`KindExactly`).
- `connected_node_ids` depends on the order of the edges, except when no edge leads out of the one-hop
  neighbourhood of the matches (`OrderInsensitiveExactly`, `OrderMatters`).

## Model

| member | source | states |
|---|---|---|
| `OntologyModel.RunKeepsInvariant` | crates/ledger-core/src/ontology.rs:205-310 | Over every run of upserts from the empty snapshot, failed ones included, ids are unique and no relation dangles; after each successful call both vectors are sorted |
| `OntologyModel.WithRelationsValid` | crates/ledger-core/src/ontology.rs:270-310 | A batch of relations that stops part-way at an unknown endpoint still leaves a valid snapshot |
| `OntologyModel.SortedFormCanonical` | crates/ledger-core/src/ontology.rs:205-211 | Sorting takes any two arrangements of the same valid contents to the identical snapshot |
| `OntologyModel.SortedArtifacts` | crates/ledger-core/src/ontology.rs:205-207 | A sorted snapshot lists artifacts by kind and, within a kind, by id in dictionary order |
| `OntologyModel.KindsRank` | crates/ledger-core/src/ontology.rs:9-33 | Kinds rank in the order in which they are declared |
| `OntologyModel.RelationLeqExactly` | crates/ledger-core/src/ontology.rs:208-210 | Relations are ordered by name, start, end and id, each in dictionary order |
| `OntologyModel.ArtifactIdTells` | crates/ledger-core/src/ontology.rs:245-249 | An artifact is known by its "id" attribute if it has one; with a hash that tells inputs apart, those without one share an id only if they are equal |
| `OntologyModel.RelationIdTells` | crates/ledger-core/src/ontology.rs:286-299 | With such a hash, relations share an id exactly when all four parts are equal; they are stored with the parts that were given |
| `Sorting.SortStable` | crates/ledger-core/src/ontology.rs:205-210 | Sorting keeps the order of elements that tie |
| `Sorting.StringLeqExactly` | crates/ledger-core/src/ontology.rs:205-210 | Strings are ordered by the first position in which they differ |
| `OntologyConfluence.ConfluentExactlyWhenConsistent` | crates/ledger-core/src/ontology.rs:240-268 | A batch of artifacts gives the same snapshot in every order if and only if its new artifacts with equal ids are equal |
| `OntologyConfluence.ClaimedIdsConflict` | crates/ledger-core/src/ontology.rs:240-268 | Two inputs that claim the same id for different kinds: the snapshot shows which came first |
| `OntologyConfluence.ArtifactUpsertsConfluent` | crates/ledger-core/src/ontology.rs:240-268 | On that condition any order, batching and repetition of the same artifacts ends in the identical snapshot |
| `OntologyConfluence.BatchingIrrelevant` | crates/ledger-core/src/ontology.rs:240-268 | Splitting a list of artifacts into batches, in order, never matters |
| `OntologyConfluence.RepeatedArtifactBatch` | crates/ledger-core/src/ontology.rs:240-268 | Upserting a batch again inserts nothing and leaves the snapshot as it was |
| `OntologyConfluence.KnownBatch` | crates/ledger-core/src/ontology.rs:280-286 | A batch of relations is accepted whole if and only if every endpoint of it is a stored artifact |
| `OntologyConfluence.RelationUpsertsConfluent` | crates/ledger-core/src/ontology.rs:270-310 | Accepted relation batches are confluent on the same condition |
| `OntologyConfluence.RelationsConfluentExactlyWhenConsistent` | crates/ledger-core/src/ontology.rs:270-310 | A batch of relations gives the same snapshot in every order if and only if, all endpoints being known, its new relations with equal ids are equal, or, some endpoint being unknown, every relation of it between known artifacts is stored already |
| `OntologyConfluence.UnknownEndpointShows` | crates/ledger-core/src/ontology.rs:280-286 | A new relation next to one with an unknown endpoint is kept when it comes first; the other way round nothing changes |
| `OntologyConfluence.RepeatedRelationBatch` | crates/ledger-core/src/ontology.rs:270-310 | Upserting an accepted relation batch again inserts nothing and changes nothing |
| `Keyed.AddAllMembers` | crates/ledger-core/src/ontology.rs:248-262 | What a batch leaves in a vector: all that was there, and exactly the first element of each id that was not |
| `Ontology.OntologySnapshot.SortDeterministic` | crates/ledger-core/src/ontology.rs:205-211 | Puts both vectors in their canonical order, in place |
| `Ontology.OntologySnapshot.UpsertArtifacts` | crates/ledger-core/src/ontology.rs:240-268 | The new snapshot is the sorted first-wins union; the result counts the insertions and lists the ids in input order |
| `Ontology.OntologySnapshot.UpsertRelations` | crates/ledger-core/src/ontology.rs:270-310 | The same for relations; fails exactly when some endpoint is unknown, keeping what precedes the culprit |
| `Ontology.OntologySnapshot.QueryPath` | crates/ledger-core/src/ontology.rs:312-370 | The loop over the queue computes the query, which the lemmas of `PathQuery` characterise |
| `PathQuery.QueryExact` | crates/ledger-core/src/ontology.rs:312-370 | A query fails only on an unknown start, and otherwise returns, once each, exactly the artifacts that a walk of at most `max_depth` relations between known artifacts leads to |
| `PathQuery.QueryTree` | crates/ledger-core/src/ontology.rs:337-369 | Its relations form a spanning tree of its artifacts in which every artifact sits at its shortest distance, and the distances never decrease |
| `PathQuery.DepthIsDistance` | crates/ledger-core/src/ontology.rs:337-369 | Each artifact was put on the queue at its shortest distance, so a longer first path never hides a node inside the limit |
| `PathQuery.AdvanceWork` | crates/ledger-core/src/ontology.rs:337-369 | Handling the head of the queue lowers the number of unseen known ids plus waiting ids: the search ends |
| `PathQuery.DeepQueryReachesAll` | crates/ledger-core/src/ontology.rs:312-368 | A query with a limit no less than the number of artifacts, or without a limit over no more artifacts than 64 bits count, returns exactly what some walk leads to |
| `PathQuery.QueryWithoutDepth` | crates/ledger-core/src/ontology.rs:330 | A query without a depth over fewer than 2^64 artifacts returns exactly the artifacts that some walk leads to |
| `AnswerOrders.QueryOrdered` | crates/ledger-core/src/ontology.rs:336-368 | Relations are listed as their starts are and, from one start, in the order of steps; each is the first in this order of all stored relations from something listed to its target |
| `AnswerOrders.StepLeqExactly` | crates/ledger-core/src/ontology.rs:351 | Steps are ordered by relation name, target and id, each in dictionary order |
| `PathQuery.QueryPermuted` | crates/ledger-core/src/ontology.rs:312-370 | With unique ids the answer, its order included, is the same for every arrangement of the stored vectors |
| `EvidenceNodes.HashInvertsNew` | crates/arc-kit-au/src/node.rs:50-52 | `hash` inverts `new` for every hash text, colons included |
| `EvidenceNodes.TypeInvertsNew` | crates/arc-kit-au/src/node.rs:32-48 | `node_type` inverts `new` for exactly the node types other than `RndActivity` and `TaxOffset`, whose prefixes it does not read |
| `EvidenceNodes.OtherPrefixes` | crates/arc-kit-au/src/node.rs:105-106 | The ids of those two begin with "rnd" and "tax" |
| `EvidenceNodes.NewIdInjective` | crates/arc-kit-au/src/node.rs:28-30 | Different types or hash texts make different ids |
| `EvidenceIds.IdsTellExactly` | crates/arc-kit-au/src/node.rs:145-446 | With a hash that tells lists of fields apart, two nodes share an id exactly when they are of one kind and agree in its identifying fields, which the predicate lists |
| `EvidenceIds.IdText` | crates/arc-kit-au/src/node.rs:28-30 | An id is written as a word for the kind of node, a colon and the hash; the words are listed |
| `EvidenceIds.RowIdText` | crates/arc-kit-au/src/node.rs:117-124 | What is hashed for a row are its four fields in order, each followed by a line feed |
| `EvidenceIds.PartsIdentifiedExactly` | crates/arc-kit-au/src/node.rs:117-124 | With an injective digest, the hash of two or more fields is that of no other list of as many exactly when no field holds a line feed |
| `EvidenceIds.RowIdentifiedExactly` | crates/arc-kit-au/src/node.rs:164-176 | A row's id is that of no other row exactly when none of its four fields holds a line feed |
| `EvidenceIds.FedRowsCollide` | crates/arc-kit-au/src/node.rs:117-124 | Two different rows with one id, because of a line feed in the account |
| `EvidenceIds.PlainRowsApart` | crates/arc-kit-au/src/node.rs:164-176 | Rows without line feeds are told apart from each other and from all stored nodes |
| `EvidenceGraphs.EvidenceGraph.ValidIsWellFormed` | crates/arc-kit-au/src/graph.rs:68-98 | The invariant kept by every method means: ids are unique, no edge dangles, and the index knows exactly the stored ids |
| `EvidenceGraphs.EvidenceGraph.IndexAgrees` | crates/arc-kit-au/src/graph.rs:101-103 | The linear scan and the hash index find the same node |
| `EvidenceGraphs.EvidenceGraph.AddNode` | crates/arc-kit-au/src/graph.rs:68-77 | Stores a node under a new id; rejects a known id and then changes nothing |
| `EvidenceGraphs.EvidenceGraph.AddEdge` | crates/arc-kit-au/src/graph.rs:80-98 | Stores the edge in the list and in the digraph; rejects an unknown end, source first, and then changes nothing |
| `EvidenceGraphs.EvidenceGraph.GetNode` | crates/arc-kit-au/src/graph.rs:101-103 | The first stored node with the id, if any |
| `EvidenceGraphs.EvidenceGraph.Clear` | crates/arc-kit-au/src/graph.rs:157-162 | Leaves the empty graph, index and digraph included |
| `EvidenceGraphs.EvidenceGraph.EnsureNode` | crates/arc-kit-au/src/graph.rs:167-176 | Adds the node unless its id is known, and reports which |
| `EvidenceGraphs.EvidenceGraph.EnsureEdge` | crates/arc-kit-au/src/graph.rs:180-206 | Adds the edge iff both ends are known and it is not stored yet, and reports which |
| `EvidenceGraphs.EvidenceGraph.ArcOfEdge` | crates/arc-kit-au/src/graph.rs:196-202 | Looking for an arc of the digraph is looking for an edge of the list |
| `EvidenceGraphs.EvidenceGraph.TraceTransaction` | crates/arc-kit-au/src/trace.rs:111-157 | The tracer computes the chain that the lemmas below speak of, or none for an unknown transaction |
| `EvidenceGraphs.EvidenceGraph.FindMissingProvenance` | crates/arc-kit-au/src/missing.rs:61-152 | The scanner, by its boolean flags, computes the gaps that the lemmas below speak of |
| `EvidenceGraphs.EvidenceGraph.WorkQueueSummary` | crates/arc-kit-au/src/graph.rs:212-221 | Complete, ready and blocked transactions add up to the total |
| `EvidenceReaders.ReadersAgree` | crates/arc-kit-au/src/missing.rs:61-152 | On every well-formed graph the list of the gap scanner is the list of the chain tracer, element for element |
| `EvidenceReaders.BadgeAgrees` | crates/arc-kit-au/src/badge.rs:51-83 | The badge is Complete iff there is no gap, Partial (with the same list) iff the gap is not critical, and Missing or NotFound iff it is: NotFound when source, rows and classification are all missing, otherwise Missing with those of the three that are |
| `EvidenceReaders.SuggestionExactly` | crates/arc-kit-au/src/missing.rs:124-137 | A gap suggests to classify, else to approve, else to ingest, else to export, whichever is missing first |
| `EvidenceReaders.RowsBeforeSource` | crates/arc-kit-au/src/missing.rs:77-95 | A transaction without rows has no source document either |
| `EvidenceReaders.WorkQueueConserved` | crates/arc-kit-au/src/graph.rs:212-221 | Over any well-formed graph each transaction is counted once: complete, ready or blocked |
| `EvidenceReaders.MissingNeverGains` | crates/arc-kit-au/src/missing.rs:61-152 | As a graph grows, no transaction's missing list gains an element and none becomes critical |
| `EvidenceValues.ReplayWellFormed` | crates/arc-kit-au/src/graph.rs:233-246 | Loading arbitrary lists yields a well-formed graph with the first node of each id and exactly the edges between stored nodes |
| `EvidenceValues.LoadAfterSave` | crates/arc-kit-au/src/store.rs:52-98 | Loading what was saved gives back the identical graph, parallel edges included |
| `EvidenceGraphs.Load` | crates/arc-kit-au/src/store.rs:52-72 | An absent store is the empty graph; a version other than 1 is rejected; otherwise both lists are replayed into a valid graph |
| `EvidenceGraphs.SaveThenLoad` | crates/arc-kit-au/src/store.rs:52-98 | Save followed by load is the identity on valid graphs |
| `EvidenceBuilders.EvidenceBuilder.EnsureDocument` | crates/arc-kit-au/src/builder.rs:28-32 | Adds the document once and returns its id |
| `EvidenceBuilders.EvidenceBuilder.EnsureExtractedRows` | crates/arc-kit-au/src/builder.rs:36-50 | Adds the rows and the edges from the document to them, in order |
| `EvidenceIds.RowNodesStored` | crates/arc-kit-au/src/builder.rs:36-50 | Rows that are told apart are stored under one node each: as many nodes are added as there are different rows without one |
| `EvidenceIds.RowEdgesStored` | crates/arc-kit-au/src/builder.rs:36-50 | And each is linked to the known document by one edge |
| `EvidenceBuilders.EvidenceBuilder.EnsureTransaction` | crates/arc-kit-au/src/builder.rs:53-61 | Adds the transaction and the edges from its known source rows |
| `EvidenceBuilders.EvidenceBuilder.EnsureClassification` | crates/arc-kit-au/src/builder.rs:64-72 | Adds the classification and its edge from the transaction named by its id |
| `EvidenceBuilders.EvidenceBuilder.EnsureProposal` | crates/arc-kit-au/src/builder.rs:75-83 | The same for a model proposal |
| `EvidenceBuilders.EvidenceBuilder.EnsureApproval` | crates/arc-kit-au/src/builder.rs:86-94 | The same for an operator approval |
| `EvidenceBuilders.EvidenceBuilder.EnsureWorkbookRow` | crates/arc-kit-au/src/builder.rs:97-104 | The same for an exported workbook row |
| `EvidenceBuilders.EvidenceBuilder.EnsureValidationIssue` | crates/arc-kit-au/src/builder.rs:107-114 | The same for a validation issue |
| `EvidenceBuilders.EvidenceBuilder.BuildFullChain` | crates/arc-kit-au/src/builder.rs:118-131 | Adds document, rows, transaction and classification with their edges |
| `BuilderModel.RunOnlyAddsEvidence` | crates/arc-kit-au/src/builder.rs:28-131 | Along any sequence of builder calls the graph stays well formed, keeps its nodes and edges, and no missing list gains an element |
| `BuilderModel.ApplyTwiceExactly` | crates/arc-kit-au/src/builder.rs:28-131 | Immediately repeating a call changes nothing, if and only if the call is not one for rows under an unsettled document id |
| `BuilderModel.RowsTwiceExactly` | crates/arc-kit-au/src/builder.rs:34-50 | The exact condition for `ensure_extracted_rows`: the document is stored, or every row id before the first row that has its id occurs again from that row on |
| `BuilderModel.RowsNotIdempotent` | crates/arc-kit-au/src/builder.rs:34-50 | Two rows, the second posing as their document: the repeated call adds an edge |
| `BuilderModel.DocumentIdsSettle` | crates/arc-kit-au/src/builder.rs:34-50 | The id of a document record always meets the condition |
| `BuilderModel.FullChainNotCritical` | crates/arc-kit-au/src/builder.rs:118-131 | After a full chain with at least one row, the gap of its transaction is never critical, whatever the transaction id contains |
| `BuilderModel.FullChainTwice` | crates/arc-kit-au/src/builder.rs:118-131 | Repeating a full chain changes nothing |
| `BuilderProgress.SingleCallExactly` | crates/arc-kit-au/src/builder.rs:64-114 | A classification, approval or export takes exactly its own element off the missing list of exactly the transaction it names, if that is known; documents, proposals and issues take nothing off; every other list stays |
| `BuilderEffects.TransactionExactly` | crates/arc-kit-au/src/builder.rs:53-61 | Storing a transaction takes "rows" off its own missing list iff it names a known row, "source" iff it names a known row that was extracted from something, and changes nothing else |
| `BuilderEffects.RowsExactly` | crates/arc-kit-au/src/builder.rs:36-50 | Storing rows takes "source" off the lists of exactly the transactions that a row with a new edge produces, and changes nothing else |
| `BuilderProgress.AttachedIsTraced` | crates/arc-kit-au/src/trace.rs:142-153 | The tracer then lists the stored classification, proposal, approval or export among its own kind |
| `BuilderProgress.CompleteEvidence` | crates/arc-kit-au/src/builder.rs:28-131 | In any run with a full chain of at least one row and, later, in either order, an approval and an export of its transaction, nothing is missing in the end and the badge is Complete |
| `DiagramText.ConditionReadsBack` | book/theme/rhai-live-core.js:151-162 | A written condition with any of the six operators reads back as itself, although some operators contain others |
| `DiagramSyntax.KeywordsExactly` | book/theme/rhai-live-core.js:197-229 | The first characters of a line decide how it is read |
| `DiagramSyntax.CommentIgnored` | book/theme/rhai-live-core.js:197 | A comment is as if it were not there |
| `DiagramSyntax.PipelineExactly` | book/theme/rhai-live-core.js:198-207 | A pipeline has exactly one arrow with something on both sides; anything else is malformed |
| `DiagramSyntax.PipelineDrawn` | book/theme/rhai-live-core.js:198-237 | A written pipeline is drawn as one edge from its name to its target |
| `DiagramSyntax.ConditionalExactly` | book/theme/rhai-live-core.js:208-221 | So has a condition; one without a comparison is sanitised |
| `DiagramSyntax.MatchArmExactly` | book/theme/rhai-live-core.js:222-229 | A match arm has exactly one double arrow and exactly one arrow after it |
| `DiagramSyntax.ComparisonExactly` | book/theme/rhai-live-core.js:151-165 | A comparison is cut at the first occurrence of the first of the six operators, in their order, that has something on both sides; when there is none it is no comparison |
| `DiagramSyntax.IgnoredReported` | book/theme/rhai-live-core.js:231 | A line that is none of the three is reported as ignored, under its number |
| `DiagramSyntax.CaptionReadsBack` | book/theme/rhai-live-core.js:187 | The caption of a decision reads back as the condition that it decides |
| `DiagramSyntax.DefaultArms` | book/theme/rhai-live-core.js:176-178 | Which arms are drawn as the default |
| `DiagramPrints.LineReadsBack` | book/theme/rhai-live-core.js:196-232 | A statement of each kind, written on one line, is read back as itself |
| `DiagramPrints.ProgramReadsBack` | book/theme/rhai-live-core.js:196-232 | A whole program written from statements is read back as those statements, in order, unless a piece of it contains a separator of the syntax |
| `DiagramText.ParseStatements` | book/theme/rhai-live-core.js:196-232 | The line loop files every statement, and every diagnostic with its kind, line number, message and source text |
| `DiagramText.FiledInOrder` | book/theme/rhai-live-core.js:196-232 | Each statement is filed behind those of its kind before it, with its parts in place |
| `DiagramText.EveryLineAccountedFor` | book/theme/rhai-live-core.js:196-232 | Each line counts once, as a statement, as a diagnostic that carries its number and text, or as blank |
| `ThresholdChains.CompilationFaithfulExactly` | book/theme/rhai-live-core.js:180-194 | For every value the compiled chain reaches the target of the tightest threshold that holds, and falls off the end iff none holds, if and only if the decision ids are distinct |
| `ThresholdChains.ExponentsCollide` | book/theme/rhai-live-core.js:172-183 | Distinct thresholds are not enough: the decision ids of 1e21 and 1e-21 are the same, and that chain is not faithful |
| `ThresholdChains.RepeatedThresholdCollides` | book/theme/rhai-live-core.js:172-183 | A chain with two lines of the same threshold among its own is not faithful |
| `DecisionIds.NumeralsFaithfulExactly` | book/theme/rhai-live-core.js:172-194 | A chain of thresholds written without exponents does what its lines say, for every value, exactly when the thresholds are written differently |
| `DecisionIds.DecisionIdsTell` | book/theme/rhai-live-core.js:172-183 | Two such thresholds on one expression share a decision exactly when comparison and text are equal |
| `DecisionIds.DecisionIdParts` | book/theme/rhai-live-core.js:181-183 | A decision id is the sanitised expression, "_gt_" or "_lt_", and the sanitised numeral |
| `DecisionIds.SanitizeKeepsExactly` | book/theme/rhai-live-core.js:98 | A text stays as it is exactly when it is made of letters, digits and underscores; every sanitised text is |
| `DecisionIds.SanitizeExactly` | book/theme/rhai-live-core.js:98 | Those characters stay in place, and an underscore stands for every other |
| `DecisionIds.SixAboveFive` | book/theme/rhai-live-core.js:172-194 | With thresholds 5 and 7 the value 6 is led to the target of 5 |
| `ThresholdChains.ChainCaptions` | book/theme/rhai-live-core.js:191-192 | The edges of a decision are captioned "true" and "false" |
| `ThresholdChains.WalkDistinct` | book/theme/rhai-live-core.js:180-194 | The walk takes the first condition that holds, also inside a larger graph |
| `ThresholdChains.ChainIgnoresLineOrder` | book/theme/rhai-live-core.js:253-261 | The chain is the same for every order of the source lines |
| `DiagramBuild.BuildValid` | book/theme/rhai-live-core.js:132-149 | Every parsed graph lists each node exactly once and has no dangling edge |
| `DiagramBuild.BuildEdgeCount` | book/theme/rhai-live-core.js:234-293 | One edge per pipeline, plain condition and match arm, and 2n - 1 per group of n thresholds |
| `DiagramBuild.BuildEdges` | book/theme/rhai-live-core.js:234-293 | The edge list of the whole graph: pipelines, greater-than chains, less-than chains, plain conditions, match arms, each in order |
| `DiagramBuild.ConditionsConserved` | book/theme/rhai-live-core.js:239-251 | Every condition ends up in exactly one of: greater-than groups, less-than groups, plain conditions |
| `DiagramBuild.ThresholdGroupsExact` | book/theme/rhai-live-core.js:239-251 | A group holds exactly the numeric conditions on its expression, in source order |
| `DiagramMeaning.ChainInGraph` | book/theme/rhai-live-core.js:253-261 | The edges of each group's chain occur in the whole graph, in one piece |
| `ChainWalks.InTurnExactly` | book/theme/rhai-live-core.js:180-194 | Inside any graph, a walk asks the decisions of a chain in turn and ends at the first that holds, for every value, iff the first true edge and the first false edge of each decision are the chain's own |
| `ChainMeanings.MeansExactly` | book/theme/rhai-live-core.js:180-194 | Inside any graph and whatever the ids, a walk from a chain's first decision does what the lines say, for every value and with any number of steps from a given one on, iff within so many steps the false edges end and each threshold is led to a target that is asked for: the first decision on the way with a threshold no tighter has such a target |
| `ChainMeanings.WalkOn` | book/theme/rhai-live-core.js:180-194 | The same for one threshold: on a value of which just the conditions no tighter hold, the walk does what the lines say iff the threshold is led to such a target |
| `ChainMeanings.MeansEventuallyExactly` | book/theme/rhai-live-core.js:180-194 | Some number of steps is enough iff one more than the number of edges is |
| `DiagramMeaning.DiagramMeansExactly` | book/theme/rhai-live-core.js:234-293 | In the whole compiled diagram a group's walk means what the source lines on its expression say, for every value, iff the group is so led, where a decision leads to the target given first and to the successor given first, or else where the first "false" arm of a match with its id leads |
| `DiagramMeaning.DiagramMeansEventuallyExactly` | book/theme/rhai-live-core.js:234-293 | The same without a bound on the steps: one more than the number of edges decides |
| `DiagramMeaning.LineMeansExactly` | book/theme/rhai-live-core.js:234-293 | On a value just past one line's threshold the group's walk means what the lines say iff that threshold is led to a target that is asked for |
| `DiagramMeaning.DiagramInTurnExactly` | book/theme/rhai-live-core.js:234-293 | A group's decisions are taken in turn, for every value, iff of all decisions with an id of the group the first has the group's target and the first with a successor has the group's successor, and no "false" match arm leaves the last |
| `DiagramMeaning.DiagramMeansItsLines` | book/theme/rhai-live-core.js:234-293 | A group taken in turn means what the source lines on its expression say, within as many steps as it has lines |
| `DiagramMeaning.UnsharedIsUndisturbed` | book/theme/rhai-live-core.js:234-293 | Pipelines, plain conditions and match arms not written "false" never disturb a group, and other groups only when they share a decision id |
| `LikeNames.LikeNamesCollide` | book/theme/rhai-live-core.js:98-98 | Two lines on expressions that are sanitised alike share a decision, and the second is led to the target of the first |
| `LikeNames.DottedNamesMislead` | book/theme/rhai-live-core.js:127-296 | The text of the two lines on `a.b` and `a_b` compiles to a diagram in which the second line is led astray |
| `LikeNames.TakenWithoutHarm` | book/theme/rhai-live-core.js:180-194 | Three chains of which the last has a decision taken over by another target, and still does what its lines say |
| `LikeNames.DottedNamesAlike` | book/theme/rhai-live-core.js:98-98 | `a.b` and `a_b` are such expressions |
| `Diagrams.Diagram.AddNode` | book/theme/rhai-live-core.js:132-145 | The first node of an id wins |
| `Diagrams.Diagram.AddEdge` | book/theme/rhai-live-core.js:147-149 | Appends the edge |
| `Diagrams.Diagram.EmitThresholdChain` | book/theme/rhai-live-core.js:180-194 | The loop emits the chain of the arranged thresholds |
| `Diagrams.Diagram.AddPipelines` | book/theme/rhai-live-core.js:234-237 | Adds both nodes and the edge of each pipeline |
| `Diagrams.Diagram.AddConditions` | book/theme/rhai-live-core.js:263-275 | Adds both nodes and the edge of each plain condition |
| `Diagrams.Diagram.AddMatches` | book/theme/rhai-live-core.js:283-293 | Adds each match node and its arms, numbered within the group |
| `Diagrams.GroupArms` | book/theme/rhai-live-core.js:276-282 | Groups the arms by expression, in order of first appearance |
| `Diagrams.ParseRhaiDiagram` | book/theme/rhai-live-core.js:127-296 | The whole compiler: a valid graph that is the build of the parsed lines, with their diagnostics |
| `Layout.AssignLevels` | book/theme/rhai-live-core.js:315-321 | The single pass computes the levels that the lemmas below speak of |
| `Layout.LevelFrom` | book/theme/rhai-live-core.js:320 | A level is one more than the greatest level among the sources, 0 without incoming edges |
| `Layout.LevelIsLongestPath` | book/theme/rhai-live-core.js:315-321 | When every edge runs forward, the level of a node is the length of the longest path to it |
| `Layout.LevelIsPathLength` | book/theme/rhai-live-core.js:315-321 | In general each level is the length of some path |
| `Layout.ForwardEdgesRise` | book/theme/rhai-live-core.js:315-321 | In general the level rises along each edge whose source precedes its target |
| `Layout.PlaceNodes` | book/theme/rhai-live-core.js:322-334 | The placement loops compute the positions, heights included, that the next lemma speaks of |
| `Layout.NoSharedCell` | book/theme/rhai-live-core.js:322-334 | Every node is placed at the height of its kind and no two nodes share a cell of the ground |
| `Layout.LevelInLine` | book/theme/rhai-live-core.js:322-334 | All nodes of a level stand at the level's distance along one axis |
| `Layout.LanesApart` | book/theme/rhai-live-core.js:322-334 | Along the other axis neighbours of a level stand one lane apart, in their order |
| `Layout.LanesCentred` | book/theme/rhai-live-core.js:322-334 | The first and the last of a level stand opposite each other about 0 |
| `Layout.LiftExactly` | book/theme/rhai-live-core.js:331 | Which nodes are lifted as decisions, which as reviews, and which not at all |
| `Dates.NextDayLeast` | crates/ledger-core/src/calendar.rs:171 | Adding a day gives the least later date, and fails only on the last one |
| `Dates.PreviousDayInverse` | crates/ledger-core/src/calendar.rs:183 | Taking a day off is the inverse, and fails only on the first date |
| `Dates.AddDaysLater` | crates/ledger-core/src/calendar.rs:171 | Adding days gives a later date in range |
| `Dates.AddDaysExactly` | crates/ledger-core/src/calendar.rs:171 | Adding n days gives a date exactly when its day number is greater by n |
| `Dates.NextDayNumber` | crates/ledger-core/src/calendar.rs:171 | A closed formula for the day number, with leap years and month lengths of its own, rises by one from day to day |
| `Dates.DayNumberRises` | crates/ledger-core/src/calendar.rs:171 | Later dates have greater numbers |
| `Dates.AddDaysFits` | crates/ledger-core/src/calendar.rs:171 | Adding days fails exactly past the last date |
| `Dates.CalendarRange` | crates/ledger-core/src/calendar.rs:171 | The first and the last date, and the number of one date known from elsewhere |
| `Calendar.NextMonthly` | crates/ledger-core/src/calendar.rs:379-399 | Returns the least later date with that day of the month, and none only if there is none in range |
| `Calendar.AnnualExactly` | crates/ledger-core/src/calendar.rs:402-414 | The annual answer is the least later date with that month and day, if and only if it is not the case of 29 February where neither the rest of this year nor the next year has one but a later year in range does |
| `Calendar.LeapDayMissed` | crates/ledger-core/src/calendar.rs:402-414 | After 29 February 2024 the next one, in 2028, is not found |
| `Calendar.NextQuarterlyEstimated` | crates/ledger-core/src/calendar.rs:422-448 | Returns the least later quarter day, the January of the starting year left aside |
| `Calendar.QuarterlyExactly` | crates/ledger-core/src/calendar.rs:422-448 | That is the least later quarter day if and only if the start is not before the quarter day of its own January |
| `Calendar.NextDue` | crates/ledger-core/src/calendar.rs:165-173 | Dispatches on the rule; "every n days" answers the date whose day number is greater by n |
| `Calendar.NextDueStrictlyAfter` | crates/ledger-core/src/calendar.rs:160-173 | The answer is in range, and strictly later exactly for the rules other than "every 0 days" |
| `Calendar.EveryNDaysExactly` | crates/ledger-core/src/calendar.rs:171 | "Every n days" answers exactly the date n days on, and none only past the last date |
| `Calendar.FortnightLater` | crates/ledger-core/src/calendar.rs:171 | Every 14 days from 1 January 2024 is 15 January |
| `Calendar.NextDueUnique` | crates/ledger-core/src/calendar.rs:165-173 | There is only one answer |
| `Calendar.DueOnExactly` | crates/ledger-core/src/calendar.rs:176-189 | An event is found due on a date iff its rule matches the date: every n days iff n is 1, a January quarter day iff it is the 1st |
| `Calendar.EventsDueOn` | crates/ledger-core/src/calendar.rs:176-189 | Lists the enabled events whose rule matches, in calendar order |
| `Calendar.JanuaryPaymentNeverDue` | crates/ledger-core/src/calendar.rs:422-448 | From 14 January the payment due on the 15th is skipped for the one in April |
| `Calendar.Upcoming` | crates/ledger-core/src/calendar.rs:193-217 | Lists exactly the enabled events whose next date is at most so many days on, with that date, stably sorted by it |
| `Calendar.AgendaCompleteExactly` | crates/ledger-core/src/calendar.rs:191-217 | That list holds every date up to the horizon that stepping through an enabled event's rule gives, iff no enabled event has a second, different one by then |
| `Calendar.DailyListedOnce` | crates/ledger-core/src/calendar.rs:191-217 | Within two days only the first of the two dates of a daily event is listed |
| `Neighbourhood.ConnectedNodeIds` | crates/holon-viz-wasm/src/lib.rs:20-32 | Returns exactly the ids that a walk of edges at strictly increasing list positions, each taken in either direction, leads to from a match |
| `Neighbourhood.GrowReaches` | crates/holon-viz-wasm/src/lib.rs:20-32 | The same for every prefix of the edge list |
| `Neighbourhood.BetweenHopAndClosure` | crates/holon-viz-wasm/src/lib.rs:20-32 | The result lies between the one-hop closure and the undirected closure of the matches |
| `Neighbourhood.OrderInsensitiveExactly` | crates/holon-viz-wasm/src/lib.rs:20-32 | All orders of the edges give the same result iff no edge leads out of the one-hop neighbourhood of the matches |
| `Neighbourhood.OrderMatters` | crates/holon-viz-wasm/src/lib.rs:20-32 | Two edges whose order decides whether the far end is kept |
| `Neighbourhood.FilterKeeps` | crates/holon-viz-wasm/src/lib.rs:44-60 | Every match and every edge that touches one survives, and no surviving edge loses an end |
| `Neighbourhood.FilterNodesByText` | crates/holon-viz-wasm/src/lib.rs:35-60 | A node survives iff such a walk leads to it from a node of which some slice of the label or id is the search text, up to the case of ASCII letters |
| `LetterCases.LowerContainsExactly` | crates/holon-viz-wasm/src/lib.rs:37-44 | Looking for the lower-case text in the lower-case text finds exactly such slices |
| `LetterCases.CaseTells` | crates/holon-viz-wasm/src/lib.rs:37-44 | Lower case, and likewise upper case, makes exactly those texts equal that differ in the case of ASCII letters only |
| `Neighbourhood.FilterNodesByZLayer` | crates/holon-viz-wasm/src/lib.rs:63-84 | The same from nodes in the layer |
| `Neighbourhood.FilterNodesBySemanticType` | crates/holon-viz-wasm/src/lib.rs:87-111 | The same from nodes of the semantic type |
| `DatumAsts.ParseDatum` | crates/datum/src/ast.rs:32-157 | The line loop computes the parse that the next lemmas speak of |
| `DatumAsts.ParseUndoesPrint` | crates/datum/src/ast.rs:32-181 | Parsing the printed text of any canonical document gives back its title, preamble, sections and subsections |
| `DatumAsts.FenceExactly` | crates/datum/src/ast.rs:56 | A fence is three backticks after blanks |
| `DatumAsts.TomlHeaderExactly` | crates/datum/src/ast.rs:77-80 | A bracketed header begins and ends with brackets, blanks aside, and is not a comment line |
| `DatumAsts.HeaderOpens` | crates/datum/src/ast.rs:80-93 | Outside a fence it closes the open section, drops a pending subsection and opens a section of the name between the brackets |
| `DatumAsts.TitleExactly` | crates/datum/src/ast.rs:39-44 | The title line is the first that begins with a hash and a blank |
| `DatumAsts.ParseFailsExactly` | crates/datum/src/ast.rs:32-47 | Parsing fails on a text of blanks only and, otherwise, exactly on one without a title line |
| `DatumAsts.LinesOfUnlines` | crates/datum/src/ast.rs:55 | Splitting joined lines gives back the lines |
| `DatumSubsections.SubsectionsExactly` | crates/datum/src/ast.rs:32-157 | The subsections in the tree of a text are, in order, those `###` lines outside fences that some section header precedes and whose next structural line is not a `[name]` header |
| `DatumSubsections.NothingLostExactly` | crates/datum/src/ast.rs:32-157 | There are as many subsections as such lines iff this holds for all of them |
| `DatumSubsections.TomlHeaderDropsSubsection` | crates/datum/src/ast.rs:80-113 | After a title, a section and a subsection, a `[name]` header loses the subsection and a `##` heading keeps it |
| `DatumSubsections.BracketsAreHeader` | crates/datum/src/ast.rs:80-81 | `[v]` is a header of that kind |
| `DatumSubsections.SubsectionWithoutSectionIsLost` | crates/datum/src/ast.rs:142-149 | A text whose subsection precedes its first section has no subsection in its tree |
| `DslSymbols.ExtractDslSymbols` | crates/ledger-core/src/iso.rs:300-371 | The symbols are exactly the maximal identifier runs of the code, in order, each with its line, column, name and kind, none in a comment or string |
| `DslSymbols.KindExactly` | crates/ledger-core/src/iso.rs:348-360 | The keywords are listed; of other names those are calls that an open parenthesis follows, with or without blanks |
| `DslSymbols.IdentifierChars` | crates/ledger-core/src/iso.rs:341-346 | Identifiers start with an alphabetic character or an underscore and go on with alphanumeric ones or underscores |
| `DslSymbols.SymbolsDetermined` | crates/ledger-core/src/iso.rs:300-371 | Only one list satisfies that specification |
| `DslSymbols.SymbolsLieInCode` | crates/ledger-core/src/iso.rs:300-371 | Offsets strictly increase, symbols never overlap, and every character of a symbol is code |
| `FluxCapacitors.FluxCapacitor.AddGate` | crates/datum/src/logic.rs:130-142 | Adds a gate with as many empty input ports as its kind has inputs, and touches no other gate |
| `FluxCapacitors.FluxCapacitor.Connect` | crates/datum/src/logic.rs:144-179 | Logs a legal wire and keeps every gate the replay of the log; an illegal wire is reported in order of the checks and changes nothing |
| `FluxCapacitors.LegalWires` | crates/datum/src/logic.rs:55-77 | A wire is legal exactly from the one output of a NAND, NOR, ADD, WAIT or RX gate to one of the two inputs of a NAND, NOR or ADD gate or the one of a WAIT or TX gate |
| `FluxCapacitors.FluxCapacitor.AllPortsFilled` | crates/datum/src/logic.rs:181-198 | Lists, in order and once each, the gates with fewer wires than inputs; empty iff every input port is the target of a logged wire |
| `FluxCapacitors.FluxCapacitor.Evaluate` | crates/datum/src/logic.rs:200-209 | True iff some wire is logged and every input port is filled; only then does the charge become the number of wires and the transition count rise |
| `FluxCapacitors.RunCounts` | crates/datum/src/logic.rs:119-209 | Over every run the log holds legal wires only, and the transition count is the number of evaluations that returned true |
| `FluxCapacitors.FiringPersists` | crates/datum/src/logic.rs:144-209 | Once an evaluation would return true, it does so after any calls that add no gate |
| `FluxCapacitors.NewGateWired` | crates/datum/src/logic.rs:130-209 | Adding a gate keeps everything filled exactly when its kind has no inputs |
| `FluxCapacitors.LastIntoIff` | crates/datum/src/logic.rs:174 | A port is filled iff some logged wire leads to it |
| `FluxCapacitors.MultiBridge.ValidateInvariants` | crates/datum/src/logic.rs:352-377 | Reports (wires - distinct sources) + (wires - distinct targets) issues, and none iff the wires are one-to-one |
| `FluxCapacitors.IssuesName` | crates/datum/src/logic.rs:352-377 | Each port is reported once for every wire beyond its first |
| `FluxCapacitors.FewerPorts` | crates/datum/src/logic.rs:352-377 | There are as many distinct ports as wires iff no port repeats |
| `Amounts.InverseBalances` | crates/ledger-core/src/journal.rs:108-117 | The inverse of a well-formed decimal amount is a well-formed amount of the opposite worth |
| `Amounts.InvertTwiceExactly` | crates/ledger-core/src/journal.rs:108-117 | Inverting twice restores the text iff it did not spell out a plus sign |
| `Amounts.MagnitudeExactly` | crates/ledger-core/src/journal.rs:108-117 | An amount is worth its whole digits plus its fraction digits over a power of ten |
| `Amounts.OwedWorth` | crates/ledger-core/src/journal.rs:108-117 | Units and hundredths written in decimal behind a minus sign are owed |
| `Amounts.UnsignedExactly` | crates/ledger-core/src/journal.rs:108-117 | An unsigned amount is digits, or digits, a dot and digits |
| `Ingest.PostingsBalance` | crates/ledger-core/src/journal.rs:21-53 | The amount of a row goes to its bank account and what is worth the opposite to the suspense account, in one currency, so that the two sum to zero |
| `Ingest.RowRecorded` | crates/ledger-core/src/journal.rs:21-53 | Entry and projection carry the row's own fields and its id |
| `Ingest.RunBalances` | crates/ledger-core/src/ingest.rs:47-98 | So do those of every entry of the journal, over every run |
| `TransactionIds.IdentifiesExactly` | crates/ledger-core/src/ingest.rs:100-109 | With an injective hash, only rows with the same normalised fields share the id of a row iff no three bars of its canonical text cut it into other normalised fields |
| `TransactionIds.UnbarredIsIdentified` | crates/ledger-core/src/ingest.rs:100-109 | A row without a bar in its fields is identified |
| `TransactionIds.IdIdentifiesFields` | crates/ledger-core/src/ingest.rs:100-109 | Of two rows without a bar before the description, exactly those with the same normalised fields share an id |
| `TransactionIds.SameIdExactly` | crates/ledger-core/src/ingest.rs:100-109 | Of two rows without a bar before the description, exactly those share an id that agree up to blanks around the fields and the case of letters in account and description |
| `TransactionIds.LikeRowsShareId` | crates/ledger-core/src/ingest.rs:100-109 | Rows that agree so share their id whatever the hash |
| `TransactionIds.BarredRowsCollide` | crates/ledger-core/src/ingest.rs:100-109 | Two rows that differ in all four fields and share an id, because of a bar in the account id |
| `Ingest.NewRowsExact` | crates/ledger-core/src/ingest.rs:31-45 | The rows reported are the first of each unseen id, each id once |
| `Ingest.NewRowsInOrder` | crates/ledger-core/src/ingest.rs:31-45 | They are reported in the order of the batch: their positions in it rise |
| `Ingest.IngestSplits` | crates/ledger-core/src/ingest.rs:31-45 | Ingesting two batches as one reports what ingesting them in turn reports |
| `Ingest.IngestTwice` | crates/ledger-core/src/ingest.rs:31-45 | Ingesting a batch again reports nothing |
| `Ingest.IngestedLedger.Ingest` | crates/ledger-core/src/ingest.rs:31-45 | Reports the new rows and remembers all ids of the batch |
| `Ingest.IngestedLedger.IngestToJournal` | crates/ledger-core/src/ingest.rs:47-63 | Appends one journal entry per new row, in order |
| `Ingest.IngestedLedger.IngestToJournalAndWorkbook` | crates/ledger-core/src/ingest.rs:65-98 | Seen ids, journal and projection together take one step of the run |
| `Ingest.RunInStep` | crates/ledger-core/src/ingest.rs:65-98 | Over every run journal and projection list the same distinct ids in the same order, and those are the seen ids |
| `Ingest.ProjectionMatchesJournalExactly` | crates/ledger-core/src/ingest.rs:76-91 | A call leaves journal entries and projection rows showing the same rows iff the first and the last row of each new id of the batch are equal |
| `Ingest.RunMatchesExactly` | crates/ledger-core/src/ingest.rs:65-98 | After any run journal and projection show the same rows iff this holds of every batch, with the ids seen before it |
| `Ingest.RepeatedRowsDisagree` | crates/ledger-core/src/ingest.rs:76-91 | Two rows that differ in their source reference only: the journal shows the first, the projection the second |

## Left out

- Files, JSON, TOML and workbooks: stored data is the value itself, appending to the journal is appending to a sequence and succeeds, and saving never fails. Reading a graph through the derived deserialiser, which skips the index, is not modelled.
- Blake3, and the canonical texts that artifact and relation hashes are taken of: hashes are functions of their inputs, and where ids are to tell inputs apart the functions are required to.
- Record fields that no modelled function reads, such as timestamps and confidences, and log messages.
- Unicode tables, and how JavaScript reads and writes numbers: parameters of the model.
- Thresholds are reals: not-a-number, infinities (which the source sends to the plain conditions) and double rounding are not modelled. The same holds for layout coordinates and for the charge of a flux capacitor.
- Line, column, wire and transition counters are unbounded: the wrap-around of `u32`, `u64` and `usize` is not modelled; `usize::MAX` as the default depth is.
- Beancount text of a journal entry, with its replaced quotes: an entry is its fields and its two postings. The constructor for agent tokens is left out.
- Layout: the two later phases that fan out match arms and centre merge nodes. How a semantic type is inferred from a caption is a parameter. Icons, Mermaid, SVG and HTML are left out.
- The edge-label filter, label and layer listings and statistics of the graph viewer: each is one filter or count over a list and keeps no state.
- `to_rhai_dsl` of the ontology, whose text is read by the diagram compiler but promised nothing beyond determinism.
- Lint functions of the section parser and `validate_datum_structure`.
- Tokenizer, macros, `ModelTransformer`, `MultiBridge::apply` and `AbstractFluxCapacitor` of the gate module; the text of its messages.
- Default event tables, tags and TOML loading of the calendar. The cron rule has no next date in the source either.
- The `depths` of `PathQuery.Search` are not in the source; the search carries them so that distances can be stated.
- All other crates, scripts and services of the repository.
