# Verified models of uniko's algorithmic cores

uniko is a memory engine: agents store observations and entities in a graph, and
background passes turn them into facts, topics and procedures. This project models the
parts of it whose correctness does not follow from reading one function, and proves what
they promise. `dafny verify dfyconfig.toml` checks everything.

| files | what they model |
|---|---|
| `LabelPropagation`, `LpaConvergence`, `LpaComponents`, `Topics`, `TopicStore`, `TopicRuns` | topic detection: the co-occurrence graph, the in-place label sweep, grouping, topic ids and upserts |
| `CanonicalText`, `TextWords`, `Ordering`, `Clustering`, `ClusterRule`, `Voting`, `CanonicalChoice`, `Contradiction` | the text keys, object clusters, votes and the contradiction rule of consolidation |
| `Grouping`, `FactStore`, `Evidence`, `Planning`, `Ledger`, `Consolidation`, `CycleInputs`, `OpenFacts`, `CycleStats`, `KnowledgeBase`, `Paraphrase`, `SwingBack`, `LostUpgrade` | the consolidation cycle, from fetched observations to facts, edges and closed facts, and what every run of cycles keeps |
| `Procedures`, `ProcedureUses`, `ProcedureStore`, `PromotionReports`, `PromotionIdempotence` | the procedure lifecycle and the promotion pass |
| `CircuitBreaker`, `BreakerHistories`, `BreakerInterleavings`, `BreakerOutcomes` | the circuit breaker, once with overlapping calls and once with single atomic operations of any number of threads |
| `PublishOrder`, `PublishManifests` | the publish-order guard |
| `BioSpans`, `WordUnits`, `Overlap`, `WordBoundary` | decode comparison and answer scoring of the benchmark |

Code that works in place is modelled in place: loops are loops, the label vector is an
array, the breaker, the stores and the memory are classes. Their methods are tied by
`ensures` to specification functions or relations, and the lemmas are about those. A hash
map is iterated in an arbitrary order. A cycle is a relation between memories that the
method is shown to establish for every valid memory and every answer of its environment;
the theorems about cycles are about that relation. What the knowledge base, the embedding model and the
clock answer are parameters.

## What turned out not to hold

Each of these is a statement of the code's documentation, or an expectation a caller
would have, that the code does not meet. The lemmas named give an input, and exactly
when it happens.

- A paraphrase of the canonical object can be invalidated
  (`crates/uniko-memory/src/consolidation.rs:23-29` says it is not): it is, exactly when its
  own cluster wins with less than 60% of the votes. Input: `Paraphrase.ParaphraseWitness`, with
  the clusters that its embeddings give. Condition: `Contradiction.ParaphraseStaleExactly`.
- A cycle can leave a subject and predicate that was just voted on without any open fact,
  because reinforcing never reopens: exactly when its own fact is stored already, or made by
  an earlier plan, and every open fact is contradicted. Evidence that swings back to an
  old object does this. Input: `SwingBack.SwingBackWitness`, on a memory
  `SwingBack.RunOnMemory` runs. Condition: `OpenFacts.NoneOpenExactly`.
- A cycle panics exactly when it is to close a fact that does not start before now, as one
  dated by an anchor in the future does not. It has written edges by then and marked
  nothing, so the ledger is broken. Input: `SwingBack.PanicWitness`. Condition:
  `OpenFacts.PanicsExactly`. Effect: `OpenFacts.AbandonedBreaksLedger`.
- `batch_upsert_facts` does not have the semantics of one upsert per row
  (`crates/uniko-store/src/operations/facts.rs:243-244`): the start and the certainty of a
  fact created from several rows can differ. Inputs: `FactStore.BatchIsNotSingles` for the
  start, `FactStore.BatchMissesUpgrade` for the certainty. Condition:
  `FactStore.BatchDiffersExactly`.
- Ten observations do not make a fact definite; crossing ten in a later upsert does. Input:
  `FactStore.TenAtOnceIsNeverDefinite`. Condition: `FactStore.DefiniteExactly`.
- A cycle can lift the count of a fact over ten and leave it indefinite: exactly when it
  closes the fact as well, because closing writes back the certainty that was read. One group
  then contradicts the fact and another, whose predicate differs in case only, supports it.
  Input: `LostUpgrade.LostUpgradeWitness`, on a memory `LostUpgrade.RunOnMemory` runs.
  Condition: `OpenFacts.UpgradeLostExactly`.
- `normalize_canonical` is not idempotent (`crates/uniko-store/src/text.rs:19` says it is):
  `"! .a"` gives `".a"` gives `"a"`. It is on a text exactly when stripping its outer
  punctuation uncovers no white space with more punctuation behind it. Input:
  `CanonicalText.NotAlwaysIdempotent`. Condition: `CanonicalText.IdempotentExactly`.
- A second promotion pass can promote: a stored procedure without a status becomes a
  candidate in the first pass and active in the second. Input:
  `PromotionIdempotence.StatuslessIsPromotedLate`. Condition: `PromotionIdempotence.SecondPassIdle`.
- HalfOpen does not allow one call (`crates/uniko-pipes/src/circuit_breaker.rs:25`) but every
  one that begins. Input: `BreakerHistories.ThreeCallsPass`. All histories:
  `BreakerHistories.HalfOpenAdmitsAll`.
- A failed probe does not always reopen the breaker (line 32 of the same file): it does exactly
  when the stored count reaches the threshold. With whole calls it takes a wrap of the 32-bit
  counter to miss it: `BreakerHistories.ProbeFailsAtTheWrap`, `BreakerHistories.FailedProbeReopens`.
  With single atomic operations a reset that comes late suffices:
  `BreakerInterleavings.FailedProbeMayNotReopen`; the condition is the same whatever other threads
  do between the operations of the probe, `BreakerInterleavings.FailureOpensAmongOthers`, and
  nothing but a reset or a wrap lowers the count: `BreakerInterleavings.LowCountIsExplained`.
- A passing publish list need not publish: exactly when a crate of the closure depends on
  itself or on an unpublishable crate, which the guard does not look at. Input:
  `PublishOrder.PassMayNotPublish`. Condition: `PublishOrder.PassPublishesExactly`.
- `contains_at_word_boundary` panics when the needle starts with a multi-byte character and
  its first occurrence does not stand alone. Input: `WordBoundary.PanicWitness`, long enough
  for the caller's limit of four bytes. Condition: the contract of
  `WordBoundary.ContainsAtWordBoundary`.
- Ids are not injective when their separator occurs in the parts. A procedure shares its bytes
  with another exactly when a part holds a NUL: `ProcedureStore.AliasExactlyWithNul`. A triple
  shares its fact with another exactly when a part holds a bar: `FactStore.AliasExactlyWithBar`,
  input `FactStore.BarAliasesFacts`. A topic shares its bytes with another exactly when it has two
  or more members, or one whose id falls in two at a bar: `Topics.SharedBytesExactly`, input
  `Topics.BarInIdAliases`. One of the two topics then holds an entity id with a bar
  (`Topics.SharedBytesNeedABar`), which takes an entity row that the crates did not write:
  they make entity ids with `entity_id` (`crates/uniko-store/src/id.rs:113-119`), of sixteen
  hexadecimal digits behind `ent_`.

## Model

| member | source | states |
|---|---|---|
| LabelPropagation.Vote | crates/uniko-cortex/src/topics.rs:168-179 | for every iteration order of the tally, the result is the smallest label of maximal weight among the neighbours |
| LabelPropagation.BestIsUnique | crates/uniko-cortex/src/topics.rs:174-179 | at most one label is smallest of maximal weight, so scan order cannot matter |
| LabelPropagation.SweepInPlace | crates/uniko-cortex/src/topics.rs:162-188 | one pass over the label array leaves the labels of the specified sweep, and tells whether any label changed |
| LabelPropagation.RunLpa | crates/uniko-cortex/src/topics.rs:155-190 | the in-place sweeps with the changed flag and the cap compute the iterated sweep from own labels |
| LabelPropagation.UnchangedSweepIsSettled | crates/uniko-cortex/src/topics.rs:162-188 | a sweep changes nothing if and only if every vertex with neighbours already holds its best label |
| LpaConvergence.MoveChangesAgreement | crates/uniko-cortex/src/topics.rs:180-183 | relabelling a vertex changes the same-label edge weight by twice the difference of the two labels' scores there |
| LpaConvergence.ChangeLowers | crates/uniko-cortex/src/topics.rs:164-184 | every label change strictly lowers (total weight less same-label weight, sum of labels) lexicographically |
| LpaConvergence.Converges | crates/uniko-cortex/src/topics.rs:155-190 | from any labelling, a number of sweeps bounded by the potential reaches an unchanged sweep; the result is settled and further sweeps change nothing |
| LpaConvergence.RunConverges | crates/uniko-cortex/src/topics.rs:155-190 | on the caller's graphs there is a number of sweeps from which on every `max_iterations` ends through the unchanged sweep, in one settled labelling |
| LpaConvergence.UnchangedExitIsSettled | crates/uniko-cortex/src/topics.rs:185-188 | a run that stops through an unchanged sweep is settled with respect to its final labels, on any graph |
| LpaComponents.StepKeepsReachable | crates/uniko-cortex/src/topics.rs:164-184 | after every update each label names a vertex its holder reaches |
| LpaComponents.SameLabelConnected | crates/uniko-cortex/src/topics.rs:155-190 | two entities with the same final label are in one connected component, for every `max_iterations` |
| LpaComponents.GroupByLabel | crates/uniko-cortex/src/topics.rs:192-198 | the groups are keyed by exactly the labels in use and list the holders of each in order |
| LpaComponents.GroupsPartition | crates/uniko-cortex/src/topics.rs:192-198 | index i is in the group of its own label and no other, once |
| LpaComponents.GroupInOneComponent | crates/uniko-cortex/src/topics.rs:130-131 | a group never spans two components |
| Topics.BuildAdjacency | crates/uniko-cortex/src/topics.rs:111-128 | the imperative construction equals the graph linked pair by pair |
| Topics.LinkedWeights | crates/uniko-cortex/src/topics.rs:118-128 | each entry carries exactly the weight of the usable pairs between its two ends, in either orientation |
| Topics.CallerBuildsCoOccurrence | crates/uniko-cortex/src/topics.rs:117-128 | with positive weights the graph handed on is symmetric, positive and free of self-loops |
| Topics.TopicBytesIdentifyMembers | crates/uniko-cortex/src/topics.rs:205-214 | without bars in ids, two communities hash the same bytes if and only if they have the same members in any order |
| Topics.BarInIdAliases | crates/uniko-cortex/src/topics.rs:200-214 | with a bar in an id, one member hashes like two |
| Topics.SharedBytesExactly | crates/uniko-cortex/src/topics.rs:200-214 | a community shares its bytes with one of other members if and only if it has two or more members, or its one id falls at a bar into two ids that sort in that order |
| Topics.SharedBytesNeedABar | crates/uniko-cortex/src/topics.rs:200-214 | of two communities with the same bytes and other members, one holds an id with a bar |
| TopicStore.TopicGraph.UpsertTopic | crates/uniko-cortex/src/topics.rs:216-260 | creates or refreshes one topic, merges its member edges, and reports whether it is new |
| TopicStore.TopicGraph.UpsertCommunities | crates/uniko-cortex/src/topics.rs:133-147 | in any order of communities, exactly the large enough ones are stored, and the counters count new ids, the rest and the members |
| TopicStore.TopicGraph.DetectTopics | crates/uniko-cortex/src/topics.rs:101-148 | a pass from pairs to stored topics meets its specification, which the next rows read off the labels, topics and edges |
| TopicRuns.SweptExactly | crates/uniko-cortex/src/topics.rs:162-188 | one sweep is every vertex in turn taking the smallest label of maximal weight, given that those before it have voted and those after it have not |
| TopicRuns.LastIsIterate | crates/uniko-cortex/src/topics.rs:155-190 | exactly one labelling ends a run of sweeps that starts with own labels and stops at the cap or at a settled labelling: that of the loop |
| TopicRuns.PassMeans | crates/uniko-cortex/src/topics.rs:101-148 | a pass takes the co-occurrence graph through such a run; each group of equal final labels that is large enough is a topic, linked to exactly its members, of its size, and the report counts new topics, groups and members |
| TopicRuns.EnoughIterationsSettle | crates/uniko-cortex/src/topics.rs:101-148 | with positive weights, from some number of iterations on the topics are the groups of a settled labelling |
| TopicRuns.ScoreIsSupport | crates/uniko-cortex/src/topics.rs:168-173 | the score of a label at an entity is the weight of the pairs between it and the entities that hold the label |
| TopicRuns.PairBecomesTopic | crates/uniko-cortex/src/topics.rs:101-148 | two entities that occur together become one topic of two, with two edges and the report 1/0/2 |
| TopicStore.SecondPassIsIdle | crates/uniko-cortex/src/topics.rs:133-147 | a second pass over the same data creates no topic, adds no edge and refreshes exactly what the first touched; when no entity id holds a bar, the stored entity counts stay the same as well |
| TopicStore.AssignedAtMostOnce | crates/uniko-cortex/src/topics.rs:133-147 | `entities_assigned` counts distinct entities, those of the surviving communities |
| TopicStore.TopicInOneComponent | crates/uniko-cortex/src/topics.rs:101-148 | any two members of a community that is stored as a topic are linked by a walk through the co-occurrence pairs |
| CanonicalText.NormalizeCanonical | crates/uniko-store/src/text.rs:29-47 | for any lower case of characters, into several if need be, the character loop computes the squeezed, lower-cased text |
| TextWords.WordsHold | crates/uniko-store/src/text.rs:33-45 | words are free of white space, and together hold all other characters in order |
| TextWords.WordsCounted | crates/uniko-store/src/text.rs:33-45 | there are as many words as places where the text begins or white space ends |
| TextWords.StrippedMeans | crates/uniko-store/src/text.rs:30 | of any text, outer white space and then outer punctuation are taken off, all of it and nothing else |
| TextWords.NormalizeMeans | crates/uniko-store/src/text.rs:29-47 | the normal form of any text is the words of the stripped text in lower case, with single spaces between |
| CanonicalText.IdempotentExactly | crates/uniko-store/src/text.rs:19-47 | for any sensible lower case, normalising twice is normalising once if and only if the text, once its outer punctuation is stripped and trimmed, neither begins nor ends with punctuation |
| CanonicalText.NotAlwaysIdempotent | crates/uniko-store/src/text.rs:19 | an input on which the documented idempotence fails |
| CanonicalText.NormalizeObjectIdempotent | crates/uniko-memory/src/consolidation.rs:645-647 | the object key of an object key is itself |
| CanonicalText.KeyIgnoresCase | crates/uniko-memory/src/consolidation.rs:645-647 | objects that differ in case only have the same key, although trimming comes before lower-casing |
| Clustering.NearestMeans | crates/uniko-memory/src/consolidation.rs:738-747 | the scan finds the first non-empty centroid of maximal similarity |
| Clustering.BuildClusters | crates/uniko-memory/src/consolidation.rs:717-771 | the ids are those of the sorted listing: they depend on the key set, the embeddings, the similarity and the threshold alone, and `ClusterRule` says how |
| ClusterRule.JoinsExactly | crates/uniko-memory/src/consolidation.rs:728-769 | a key with an embedding joins an older cluster if and only if the mean of that cluster so far is the first of maximal similarity, and that similarity reaches the threshold; it founds a cluster if and only if there is none such |
| ClusterRule.ClusterRuleOfSet | crates/uniko-memory/src/consolidation.rs:717-771 | the same rule for the clusters of any key set, along its sorted listing |
| ClusterRule.UnlikeShareNothing | crates/uniko-memory/src/consolidation.rs:749-768 | where no similarity reaches the threshold, no two keys share a cluster |
| Clustering.ClustersCounted | crates/uniko-memory/src/consolidation.rs:717-771 | every key gets exactly one id, ids are dense, and `counts` tells the number of keys of each |
| Clustering.CentroidsAreMeans | crates/uniko-memory/src/consolidation.rs:749-761 | every embedded centroid is the exact mean of its members; a key without embedding stays alone |
| Clustering.FoundedInOrder | crates/uniko-memory/src/consolidation.rs:722-771 | each id is new where it first occurs in the listing, or was given before |
| Clustering.MapCounted | crates/uniko-memory/src/consolidation.rs:717-771 | of any key set: the result covers exactly the keys, ids are dense, and each count is the number of keys with the id |
| Clustering.MapMeans | crates/uniko-memory/src/consolidation.rs:749-761 | of any key set: the final centroids are exact means or belong to lone keys without an embedding |
| Clustering.FoundedByLeast | crates/uniko-memory/src/consolidation.rs:722-771 | of any key set: the key that opens a cluster is its least member, and every older cluster holds a lesser key |
| Clustering.AloneWithoutEmbedding | crates/uniko-memory/src/consolidation.rs:728-736 | a key without an embedding shares its cluster with no other key |
| Clustering.ClusterMapCovers | crates/uniko-memory/src/consolidation.rs:717-771 | the keys of the result are exactly the given keys |
| Voting.CanonicalObject | crates/uniko-memory/src/consolidation.rs:812-853 | for every iteration order, the result is a surface form maximal by (count, latest time) within a cluster maximal by (count, latest time), or none without counted votes |
| CanonicalChoice.CanonicalExactly | crates/uniko-memory/src/consolidation.rs:808-853 | on the votes themselves: an object is canonical if and only if it is a spelling within a cluster, each with no rival of more votes or of as many and a later one; there is none if and only if no vote is in a cluster |
| Voting.VoteTallies | crates/uniko-memory/src/consolidation.rs:781-806 | `total` and `agree` count the votes that speak and those in the target cluster |
| CanonicalChoice.TotalIsSize | crates/uniko-memory/src/consolidation.rs:781-806 | `total` is the number of votes with an object |
| CanonicalChoice.AgreeIsSize | crates/uniko-memory/src/consolidation.rs:781-806 | `agree` is the number of votes whose key is in the cluster |
| CanonicalChoice.StaleExactly | crates/uniko-memory/src/consolidation.rs:386-404 | a prior fact is stale if and only if more than two votes of five are outside its cluster |
| Voting.AgreeIsClusterCount | crates/uniko-memory/src/consolidation.rs:781-853 | the `agree` tally of a cluster is its vote count in the canonical choice |
| Voting.AgreeCountsSumToTotal | crates/uniko-memory/src/consolidation.rs:781-853 | with clusters covering the votes, the agree counts of all clusters add up to `total` |
| Voting.NoneExactlyWhenSilent | crates/uniko-memory/src/consolidation.rs:808-853 | with clusters covering the votes, there is no canonical object if and only if no vote has a non-empty object |
| Contradiction.CanonicalIsAVote | crates/uniko-memory/src/consolidation.rs:819-853 | the canonical object is the trimmed text of a vote and lies in a winning cluster |
| Contradiction.SurvivorHoldsMajority | crates/uniko-memory/src/consolidation.rs:390-404 | a prior fact not marked stale holds at least 60% of the votes, and its cluster is the only one that can win |
| Contradiction.SurvivorsAgree | crates/uniko-memory/src/consolidation.rs:390-404 | all survivors share one cluster, and the canonical object is in it |
| Contradiction.ParaphraseStaleExactly | crates/uniko-memory/src/consolidation.rs:390-404 | a prior in the canonical object's cluster is stale if and only if that cluster has less than 60% of the votes |
| Contradiction.ParaphraseGoesStale | crates/uniko-memory/src/consolidation.rs:23-29 | in any clusters that join a and d and keep b and c apart, votes for a, a, b and c elect the cluster of a and invalidate a prior d |
| Paraphrase.ParaphraseWitness | crates/uniko-memory/src/consolidation.rs:23-29 | with the clusters that the greedy pass builds from given embeddings, every plan for these votes closes an open fact of the canonical object's own cluster |
| Paraphrase.SharedFrom | crates/uniko-memory/src/consolidation.rs:88-91 | two embedded objects share a cluster from a cosine of 0.88 on, and not below |
| Clustering.AlikeShareCluster | crates/uniko-memory/src/consolidation.rs:738-771 | where every similarity reaches the threshold, all keys with an embedding share one cluster |
| Contradiction.ChoicesPermute | crates/uniko-memory/src/consolidation.rs:812-853 | permuting the votes does not change which objects may be chosen |
| Contradiction.ChoiceIsUnique | crates/uniko-memory/src/consolidation.rs:844-852 | without ties on both measures the choice is one, for every order of votes and of map iteration |
| Grouping.GroupObservations | crates/uniko-memory/src/consolidation.rs:240-262 | for any lower case of characters, the groups are keyed by exactly the keys of the observations, subjects in canonical form, with their contributors, votes and earliest times |
| Grouping.GroupsPartition | crates/uniko-memory/src/consolidation.rs:240-262 | listing every group once lists every observation exactly as often as it was fetched |
| Grouping.GroupTimes | crates/uniko-memory/src/consolidation.rs:253-256 | the times of a group are the earliest observation time and the earliest anchor of its members |
| CycleInputs.GroupMember | crates/uniko-memory/src/consolidation.rs:240-262 | a member of a group is an observation of its key, and its vote is that of the observation |
| CycleInputs.PlanDate | crates/uniko-memory/src/consolidation.rs:406-409 | a plan is dated by the earliest anchor of its group, or by its earliest observation when there is no anchor |
| Grouping.VotePerContributor | crates/uniko-memory/src/consolidation.rs:252-261 | a group has one vote per contributor, and no group is empty |
| FactStore.FactTable.UpsertFactByTriple | crates/uniko-store/src/operations/facts.rs:110-207 | creates or reinforces one fact and reports its node, whether it is new, and its count |
| FactStore.FactTable.BatchUpsertFacts | crates/uniko-store/src/operations/facts.rs:266-517 | known facts grow by the summed counts, unknown ones are created once each in order of appearance, and each row reports its fact, new only on its first row |
| FactStore.FactTable.InvalidateFact | crates/uniko-store/src/operations/facts.rs:829-859 | writes back the interval that was read with an end, or panics and writes nothing if and only if it starts no earlier than now |
| FactStore.Dedup | crates/uniko-store/src/operations/facts.rs:299-320 | rows are collapsed per fact id: first text, summed count, earliest time, first index |
| FactStore.SinglesMean | crates/uniko-store/src/operations/facts.rs:110-207 | what any list of single upserts leaves of a fact, in closed form |
| FactStore.BatchKeepsSingles | crates/uniko-store/src/operations/facts.rs:243-244 | a batch leaves the nodes, texts, counts and open flags of single upserts, and known facts in exactly the same state |
| FactStore.BatchDiffersExactly | crates/uniko-store/src/operations/facts.rs:243-244 | a created fact differs from the singly created one if and only if a later row is earlier in time or later rows carry the count over the threshold |
| FactStore.BatchIsNotSingles | crates/uniko-store/src/operations/facts.rs:243-244 | two rows after which batch and single upserts differ in the start of the interval |
| FactStore.BatchMissesUpgrade | crates/uniko-store/src/operations/facts.rs:243-244 | two rows after which batch and single upserts agree on ten observations and differ in certainty |
| FactStore.DefiniteExactly | crates/uniko-store/src/operations/facts.rs:146-169 | over any single upserts a fact is definite if and only if it was created below the threshold and its count has reached it |
| FactStore.TenAtOnceIsNeverDefinite | crates/uniko-store/src/operations/facts.rs:146-169 | a fact created with ten observations is not definite after any later upserts |
| FactStore.FactIdIdentifies | crates/uniko-store/src/operations/facts.rs:61-68 | without bars in subject and predicate, two triples share an id if and only if they agree up to case |
| FactStore.AliasExactlyWithBar | crates/uniko-store/src/operations/facts.rs:61-68 | a triple shares its id with one that differs beyond case if and only if its subject, predicate or object contains a bar |
| FactStore.BarAliasesFacts | crates/uniko-store/src/operations/facts.rs:61-68 | with a bar, two different triples share a fact |
| Evidence.StarsPerFact | crates/uniko-memory/src/consolidation.rs:484-497 | a fact gets as many new edges as the counts of its rows sum to, rows of several groups included |
| Evidence.StarsPerObs | crates/uniko-memory/src/consolidation.rs:484-497 | an observation gets one edge per listing as a contributor |
| Planning.FindOpenFacts | crates/uniko-store/src/operations/facts.rs:745-809 | the lookup lists under each key exactly the open facts of that subject and predicate, once |
| Planning.CollectKeys | crates/uniko-memory/src/consolidation.rs:371-385 | the clustered keys are those of the votes and of the prior facts |
| Planning.VotesCovered | crates/uniko-memory/src/consolidation.rs:368-388 | the clusters a group is decided with cover all its votes |
| Planning.PlanGroup | crates/uniko-memory/src/consolidation.rs:355-430 | a plan has the group's contributors, a canonical object of its votes and clusters, exactly the stale priors, and the earliest anchor or observation time |
| Ledger.BatchKeepsCounts | crates/uniko-memory/src/consolidation.rs:453-506 | a batch upsert with its edges keeps every fact's count equal to the number of its edges |
| Ledger.CycleWiresOnce | crates/uniko-memory/src/consolidation.rs:478-497 | every fetched observation gets exactly one edge, and no other gets any |
| Ledger.EdgeToOwnGroup | crates/uniko-memory/src/consolidation.rs:484-497 | an edge joins an observation to the fact of the group it falls in |
| Ledger.MarkingShortens | crates/uniko-store/src/repository/consolidation.rs:49-71 | marking the front of the backlog as processed leaves exactly the rest of it |
| CycleInputs.BatchSizes | crates/uniko-memory/src/consolidation.rs:161 | a batch is 500 unless asked for otherwise, and at least 1 |
| CycleInputs.FetchesFirst | crates/uniko-memory/src/consolidation.rs:176 | an unprocessed observation is fetched if and only if fewer than the batch size come before it, and in its place |
| CycleInputs.ReadMeans | crates/uniko-memory/src/consolidation.rs:184-262 | a fetched observation is read with its refined triple if there is one, its subject in canonical form, and grouped by subject and predicate |
| CycleInputs.DrainsInTime | crates/uniko-memory/src/consolidation.rs:161-176 | whatever batch size is asked for, one cycle per waiting or arriving observation accounts for all that were there |
| Consolidation.CycleKeepsLedger | crates/uniko-memory/src/consolidation.rs:154-593 | every completed cycle keeps: one edge per processed observation and none for others, count equals edges for every fact, distinct nodes, facts under their own ids |
| Consolidation.WiredOnce | crates/uniko-memory/src/consolidation.rs:478-497 | after the cycle each fetched observation has exactly one SUPPORTED_BY edge |
| Consolidation.WiredToItsGroup | crates/uniko-memory/src/consolidation.rs:484-497 | and that edge comes from the fact of the plan of its own subject and predicate |
| CycleInputs.NewFactMeans | crates/uniko-memory/src/consolidation.rs:431-506 | a fact that a cycle adds is open and indefinite, has the key and canonical object of the first plan with its id, and starts at the earliest date of the plans that share it |
| CycleInputs.OldFactMeans | crates/uniko-memory/src/consolidation.rs:431-566 | a fact that was there keeps node, text and start, never becomes less certain, is never reopened, and grows by one for each edge it gets |
| Consolidation.RunKeepsLedger | crates/uniko-memory/src/consolidation.rs:154-593 | over any run of completed cycles, with new observations of any times between them, the ledger is kept, and the backlog shrinks by the batch size each time down to zero, up to what arrived |
| Consolidation.RunWiresToGroups | crates/uniko-memory/src/consolidation.rs:484-506 | over any such run, each observation it processed has one edge in the last memory, from the result of the plan with its key |
| Consolidation.DrainedRunAccountsForAll | crates/uniko-memory/src/consolidation.rs:161-176 | once cycles times batch size reaches the backlog and all that arrived since, every observation of the first memory is processed and supports exactly one fact |
| OpenFacts.OutvotedExactly | crates/uniko-memory/src/consolidation.rs:390-404 | a plan votes a fact out if and only if the fact was open under its key, is stale, and is not the plan's own |
| OpenFacts.ClosedExactly | crates/uniko-memory/src/consolidation.rs:513-546 | when no call fails, a fact is open after the cycle if and only if it was before and no plan voted it out |
| CycleInputs.OpenAfterExactly | crates/uniko-memory/src/consolidation.rs:522-566 | whatever fails, a fact is open after a cycle if and only if it was before and no plan that looked it up voted it out with a write that went through |
| OpenFacts.OpenFactsAgree | crates/uniko-memory/src/consolidation.rs:23-29 | when no call fails, all open facts of a subject and predicate that got a vote are, after the cycle, in the one cluster of the canonical object |
| OpenFacts.ClosedStaysClosed | crates/uniko-store/src/operations/facts.rs:391-420 | a closed fact is never reopened, whatever evidence it gains |
| OpenFacts.NoneOpenExactly | crates/uniko-memory/src/consolidation.rs:513-546 | when no call fails, a group's subject and predicate have no open fact after the cycle if and only if every open fact before is contradicted and not the group's own, and the own fact is stored already or made by an earlier plan |
| OpenFacts.SwingBackLeavesNone | crates/uniko-memory/src/consolidation.rs:513-541 | evidence that swings back to a closed fact's object and outvotes the open ones leaves no open fact |
| OpenFacts.ClosingUndoesUpgrade | crates/uniko-store/src/operations/facts.rs:829-859 | a closed fact keeps the start and certainty it was read with, whatever this cycle added to its count |
| OpenFacts.UpgradeLostExactly | crates/uniko-memory/src/consolidation.rs:522-546 | a stored fact ends less certain than its reinforcement makes it if and only if it is closed, was read indefinite, and this cycle lifts its count over the threshold |
| LostUpgrade.LostUpgradeWitness | crates/uniko-memory/src/consolidation.rs:522-546 | on a memory with one open fact of nine observations, every completed cycle leaves the fact with ten, closed and indefinite |
| LostUpgrade.RunOnMemory | crates/uniko-memory/src/consolidation.rs:154-593 | the method run on that memory completes at any clock past the fact's start and ends so |
| OpenFacts.PanicsExactly | crates/uniko-store/src/operations/facts.rs:829-859 | a started cycle panics if and only if the lookup works and some group contradicts an open fact of its key, other than its own, that starts no earlier than the clock then reads |
| OpenFacts.AbandonedBreaksLedger | crates/uniko-memory/src/consolidation.rs:484-593 | after a panic each fetched observation has an edge and is not marked |
| SwingBack.SwingBackWitness | crates/uniko-memory/src/consolidation.rs:513-546 | every completed cycle on a memory of one closed and one open fact, with a vote for the closed one, leaves no open fact of the key |
| SwingBack.PanicWitness | crates/uniko-memory/src/consolidation.rs:522-536 | on that memory the cycle panics if and only if the clock is not past the start of the open fact |
| SwingBack.RunOnMemory | crates/uniko-memory/src/consolidation.rs:154-593 | the cycle, run on that memory at any clock, ends as the two lemmas say |
| CycleStats.CountedAreClosed | crates/uniko-memory/src/consolidation.rs:522-546 | when no call fails, the invalidations counted are the facts closed, none twice |
| CycleStats.CountersExactly | crates/uniko-memory/src/consolidation.rs:522-566 | whatever fails, the invalidations counted are the stored facts voted out whose invalidation was recorded, and the drift alerts those of them that tipped an entity over |
| CycleStats.CreatedOnce | crates/uniko-memory/src/consolidation.rs:513-518 | results flagged as created are as many as the facts that are new |
| CycleStats.AlertsWithin | crates/uniko-memory/src/consolidation.rs:546-565 | there are never more drift alerts than invalidations |
| KnowledgeBase.PlanAll | crates/uniko-memory/src/consolidation.rs:355-430 | one plan per group, in any order of the hash map |
| KnowledgeBase.WireEdges | crates/uniko-memory/src/consolidation.rs:484-497 | the nested loops list an edge for every contributor of every plan |
| KnowledgeBase.InvalidateStale | crates/uniko-memory/src/consolidation.rs:522-566 | panics if and only if a fact voted out starts no earlier than now; otherwise exactly the facts voted out whose write succeeds are closed, with what was read of them, failures are skipped, and only full successes are counted and accounted for drift |
| KnowledgeBase.Classify | crates/uniko-memory/src/consolidation.rs:513-567 | over all plans: the closed facts, the nodes created and reinforced in order, the invalidations and the drift alerts, or a panic |
| KnowledgeBase.KnowledgeBase.constructor | crates/uniko-memory/src/consolidation.rs:154-160 | a fresh memory is valid |
| KnowledgeBase.KnowledgeBase.BeginCycle | crates/uniko-memory/src/consolidation.rs:161-506 | fetching, refining, grouping, planning, upserting and wiring establish a started cycle, with an edge per contributor |
| KnowledgeBase.KnowledgeBase.EndCycle | crates/uniko-memory/src/consolidation.rs:509-593 | from a started cycle, either it panics exactly when overdue and marks nothing, or it completes |
| KnowledgeBase.KnowledgeBase.RunCycle | crates/uniko-memory/src/consolidation.rs:154-593 | from every valid memory a cycle panics exactly when overdue, or completes, keeps the memory valid and reports: created plus reinforced is the number of groups, created the number of new facts, invalidated the facts voted out in full, and drift alerts at most those |
| Procedures.RunsStayConsistent | crates/uniko-cortex/src/procedures.rs:197-224 | over any interleaving of uses and upserts: max(success, failure) <= use_count <= success + failure, effectiveness in [0,1] and equal to the success rate, status known |
| Procedures.NeverBackToCandidate | crates/uniko-cortex/src/procedures.rs:287-343 | a procedure that left the candidate status never returns to it |
| ProcedureUses.UsesAreCounted | crates/uniko-cortex/src/procedures.rs:197-200 | over any list of uses, successes, failures and uses grow by the true, the false and all outcomes |
| ProcedureUses.StatusFollowsOutcomes | crates/uniko-cortex/src/procedures.rs:198-215 | over any list of uses, each one demotes if and only if the procedure is active and its successes are below the one share of all so far, promotes again if and only if it is deprecated and they reach the other, and otherwise leaves the status |
| ProcedureUses.MixtureIsCounted | crates/uniko-cortex/src/procedures.rs:197-343 | through any mixture of uses and upserts, failures count the failed uses, and successes and uses are the largest of what the start and each support have grown to |
| ProcedureUses.FirstUse | crates/uniko-cortex/src/procedures.rs:198-215 | a first use that succeeds leaves 1/0, 1.0 and active, one that fails 0/1, 0.0 and deprecated |
| ProcedureUses.Defaults | crates/uniko-cortex/src/procedures.rs:89-99 | with the defaults, three sequences make a new procedure active, fewer than two good uses of five demote it and three promote it again |
| Procedures.FlipIsJustified | crates/uniko-cortex/src/procedures.rs:198-215 | a status flip goes between active and deprecated and bounds the counters by the threshold it crossed |
| Procedures.FlipsSpread | crates/uniko-cortex/src/procedures.rs:198-215 | for any thresholds consecutive flips alternate, and the total grows by more than (1-d)/(1-r) or r/d between them |
| Procedures.DefaultFlipsSpread | crates/uniko-cortex/src/procedures.rs:89-99 | with the default thresholds 2n' > 3n for consecutive flips at totals n and n' |
| Procedures.FlipsGrow | crates/uniko-cortex/src/procedures.rs:89-99 | 2^k times the total at flip k is at least 3^k times the total at the first flip |
| Procedures.FlipsAreLogarithmic | crates/uniko-cortex/src/procedures.rs:198-215 | k flips in a run that ends at total N force 3^(k-1) <= 2^(k-1) N |
| ProcedureStore.NulFreeIsUnique | crates/uniko-cortex/src/procedures.rs:354-362 | the hashed bytes of NUL-free names determine agent and both actions |
| ProcedureStore.AliasExactlyWithNul | crates/uniko-cortex/src/procedures.rs:354-362 | a triple shares its bytes with another if and only if one of its parts contains a NUL |
| ProcedureStore.KnowledgeBase.RecordProcedureUse | crates/uniko-cortex/src/procedures.rs:175-226 | the counters, effectiveness and status written are those of the specified use, which `ProcedureUses` reads off the outcomes |
| ProcedureStore.KnowledgeBase.UpsertProcedure | crates/uniko-cortex/src/procedures.rs:276-347 | the node written and the created and promoted answers are those of the specified upsert |
| ProcedureStore.KnowledgeBase.PromoteProceduresOnce | crates/uniko-cortex/src/procedures.rs:125-166 | the loop computes the specified pass and report, malformed rows skipped |
| PromotionIdempotence.PassByProcedure | crates/uniko-cortex/src/procedures.rs:145-165 | a pass acts on each procedure through its own rows alone |
| PromotionReports.RowsLift | crates/uniko-cortex/src/procedures.rs:316-343 | the rows of a procedure lift successes and uses to the largest count, leave the failures, set the effectiveness to the share of the successes, and name it after the last row |
| PromotionReports.RowsDecideStatus | crates/uniko-cortex/src/procedures.rs:287-307 | a new procedure or a candidate ends active if and only if some row reaches the threshold, one without a status if and only if a later row does, any other keeps its status |
| PromotionReports.ReportCounts | crates/uniko-cortex/src/procedures.rs:145-165 | `created` counts the procedures that were not stored, and with `reinforced` all usable rows |
| PromotionReports.PromotedAreLifted | crates/uniko-cortex/src/procedures.rs:145-165 | `promoted` counts the procedures that the pass made active without creating them so, each once |
| PromotionIdempotence.RefoldIdle | crates/uniko-cortex/src/procedures.rs:287-343 | upserting one procedure's rows again changes it if and only if it is promoted late |
| PromotionIdempotence.SecondPassIdle | crates/uniko-cortex/src/procedures.rs:145-165 | a second pass changes nothing and reports nothing created or promoted if and only if no statusless procedure is promoted late, for any rows |
| PromotionIdempotence.StatuslessIsPromotedLate | crates/uniko-cortex/src/procedures.rs:287-307 | an input on which the second pass promotes |
| CircuitBreaker.CircuitBreaker.constructor | crates/uniko-pipes/src/circuit_breaker.rs:46-54 | a new breaker matches the empty history |
| CircuitBreaker.CircuitBreaker.CheckRecovery | crates/uniko-pipes/src/circuit_breaker.rs:140-144 | whether the recovery time has passed since the last failure of the history |
| CircuitBreaker.CircuitBreaker.IsAvailable | crates/uniko-pipes/src/circuit_breaker.rs:69-76 | gives the verdict a call at that time gets |
| CircuitBreaker.CircuitBreaker.BeginCall | crates/uniko-pipes/src/circuit_breaker.rs:85-99 | admits unless the history rejects, and the state stays that of the history |
| CircuitBreaker.CircuitBreaker.RecordSuccess | crates/uniko-pipes/src/circuit_breaker.rs:114-120 | closes the breaker and keeps it matching the history |
| CircuitBreaker.CircuitBreaker.RecordFailure | crates/uniko-pipes/src/circuit_breaker.rs:123-137 | keeps the breaker matching the history through threshold and 32-bit wrap |
| BreakerHistories.RunIsSinceLastSuccess | crates/uniko-pipes/src/circuit_breaker.rs:114-137 | the failure run counts the failures after the last success, wherever that is |
| BreakerHistories.LastFailureIsLast | crates/uniko-pipes/src/circuit_breaker.rs:123-144 | the failure time of a history is that of its last failure, whatever came after |
| BreakerHistories.NoEarlyRejection | crates/uniko-pipes/src/circuit_breaker.rs:85-99 | no call is rejected before the threshold number of failures |
| BreakerHistories.ProbingExactly | crates/uniko-pipes/src/circuit_breaker.rs:85-137 | the breaker is probing if and only if some call in the history was let through when open and recovered, and no success and no reopening failure came after it |
| BreakerHistories.RejectsExactly | crates/uniko-pipes/src/circuit_breaker.rs:90-99 | a call is rejected if and only if the failures since the last success reach the threshold, less than the recovery time has passed since the last, and no call in the history was let through to probe for good |
| BreakerHistories.RejectionsLeaveNoTrace | crates/uniko-pipes/src/circuit_breaker.rs:90-99 | after any number of rejected calls, state, last failure, failure run and all verdicts are what they were |
| BreakerHistories.HalfOpenAdmitsAll | crates/uniko-pipes/src/circuit_breaker.rs:25-26 | from half open, any number of calls all pass and leave it half open |
| BreakerHistories.ThreeCallsPass | crates/uniko-pipes/src/circuit_breaker.rs:25-26 | a history after which three calls probe at once |
| BreakerHistories.FailedProbeReopens | crates/uniko-pipes/src/circuit_breaker.rs:31-32 | a failed probe reopens the breaker if and only if the stored count does not wrap below the threshold |
| BreakerHistories.ProbeFailsAtTheWrap | crates/uniko-pipes/src/circuit_breaker.rs:31-32 | a history with all but one failure of the 32-bit range, after which a failed probe leaves it half open |
| BreakerHistories.OnlyListedTransitions | crates/uniko-pipes/src/circuit_breaker.rs:31-32 | every state change is one of the five of the state machine, with its cause |
| BreakerInterleavings.StepKeepsInv | crates/uniko-pipes/src/circuit_breaker.rs:85-137 | every atomic operation of any thread keeps the invariant behind the next row |
| BreakerInterleavings.NoUnearnedRejection | crates/uniko-pipes/src/circuit_breaker.rs:85-137 | under every schedule, Open, HalfOpen and rejection come after the counter was raised the threshold number of times with no reset between |
| BreakerOutcomes.RejectionIsEarned | crates/uniko-pipes/src/circuit_breaker.rs:85-137 | under every schedule, behind Open, HalfOpen and rejection are the threshold number of different entries that reported a failure, each counted by its thread's next operation, with no reset from the first count to the last |
| BreakerOutcomes.NoFailureStaysClosed | crates/uniko-pipes/src/circuit_breaker.rs:85-137 | under every schedule in which no future fails and nothing reports a failure, the breaker stays Closed |
| BreakerOutcomes.SuccessClosesAmongOthers | crates/uniko-pipes/src/circuit_breaker.rs:101-120 | under every schedule, whatever others do in between: a future that succeeds leaves the breaker Closed by the thread's next operation and the count 0 by the one after |
| BreakerOutcomes.FailureCountsAmongOthers | crates/uniko-pipes/src/circuit_breaker.rs:106-124 | likewise a future that fails adds one to the count by the thread's next operation |
| BreakerOutcomes.CallRunsUnlessOpen | crates/uniko-pipes/src/circuit_breaker.rs:85-99 | likewise a call runs its future at once if and only if the state it loads is not Open |
| BreakerOutcomes.OpenCallProbesExactly | crates/uniko-pipes/src/circuit_breaker.rs:90-144 | likewise a call that loaded Open is turned away if and only if its clock is not past the recovery time after the failure it reads; otherwise it makes the breaker HalfOpen and runs |
| BreakerInterleavings.QuietClosedIsBelow | crates/uniko-pipes/src/circuit_breaker.rs:114-137 | while no thread is in the middle of recording, a Closed breaker holds a count below the threshold |
| BreakerInterleavings.Race | crates/uniko-pipes/src/circuit_breaker.rs:114-137 | a schedule that leaves the breaker Open with a count of zero |
| BreakerInterleavings.FailureOpensAmongOthers | crates/uniko-pipes/src/circuit_breaker.rs:123-137 | under every schedule, with any operations of other threads between its own: the three operations of a thread that counts a failure end in Open if the count it wrote reaches the threshold, and otherwise in the state the others have left |
| BreakerInterleavings.FailureOpensExactly | crates/uniko-pipes/src/circuit_breaker.rs:123-137 | of the three operations run with no other thread in between: they leave the breaker Open if and only if it was Open or the stored count reaches the threshold |
| BreakerInterleavings.CountIsRun | crates/uniko-pipes/src/circuit_breaker.rs:114-137 | under every schedule the stored count is the number of additions since the last reset, on 32 bits |
| BreakerInterleavings.LowCountIsExplained | crates/uniko-pipes/src/circuit_breaker.rs:114-137 | under every schedule, a breaker not Closed with a count below the threshold once reached it, and after every time it did, the counter was reset or has wrapped |
| BreakerInterleavings.FailedProbeMayNotReopen | crates/uniko-pipes/src/circuit_breaker.rs:31-32 | a schedule in which a failed probe leaves the breaker HalfOpen |
| PublishOrder.Closure | scripts/ci/check_publish_list.py:61-68 | the worklist ends, with exactly the crates reachable from the root |
| PublishOrder.CheckPublishList | scripts/ci/check_publish_list.py:83-126 | the exit code is 0 if and only if the list is a good one, which the next row reads off the manifests |
| PublishManifests.GoodListExactly | scripts/ci/check_publish_list.py:34-126 | a list is good if and only if it is non-empty, without duplicates, holds exactly the crates that the root needs directly or through others and that may be published, and none before a crate it needs |
| PublishManifests.DependsExactly | scripts/ci/check_publish_list.py:44-59 | a crate waits for another of the workspace if and only if the last manifest of its name has it as a normal, a build or a versioned dev dependency |
| PublishManifests.ForbiddenExactly | scripts/ci/check_publish_list.py:41 | a crate may not be published if and only if its manifest has an empty registry list |
| PublishManifests.PassMeans | scripts/ci/check_publish_list.py:34-126 | on a passing list, every such dependency of a listed crate that may be published is listed before it, itself apart |
| PublishManifests.MissingDependencyFails | scripts/ci/check_publish_list.py:90-93 | a list without a normal dependency of the root does not pass, and does with it in front |
| PublishOrder.OrderHolds | scripts/ci/check_publish_list.py:108-113 | on such a list the position loop decides the order |
| PublishOrder.PrefixesAreClosed | scripts/ci/check_publish_list.py:108-113 | every prefix of a passing list holds all other in-closure dependencies of its crates |
| PublishOrder.PassPublishesExactly | scripts/ci/check_publish_list.py:2-15 | a passing list publishes from start to end if and only if no crate of the closure depends on itself or on an unpublishable crate |
| PublishOrder.PassMayNotPublish | scripts/ci/check_publish_list.py:108-113 | a passing list of a crate with a versioned dev dependency on itself, which cannot be published |
| PublishOrder.NoCycles | scripts/ci/check_publish_list.py:2-15 | the in-closure graph of a passing list has no cycle through two distinct crates |
| BioSpans.XervoNer | crates/uniko-bench/src/nlp_parity_main.rs:277-309 | the merge loop returns the located spans of the labels |
| BioSpans.SpansAreRuns | crates/uniko-bench/src/nlp_parity_main.rs:281-303 | on arbitrary tags the spans are ordered, disjoint, maximal runs from an opening label on, and cover exactly the tagged tokens |
| BioSpans.EntityHoldsItsTokens | crates/uniko-bench/src/nlp_parity_main.rs:277-309 | on tokens in order, an entity reaches from the first to the last byte of the tokens of its span |
| BioSpans.ParseBare | crates/uniko-bench/src/nlp_parity_main.rs:284-292 | no tag, the empty one and O are outside, and a bare type opens a span |
| BioSpans.ParseTag | crates/uniko-bench/src/nlp_parity_main.rs:284-292 | parsing the text of a B- or I- label, whatever its type text, gives the label back |
| BioSpans.BioRoundTrip | crates/uniko-bench/src/nlp_parity_main.rs:277-309 | encoding ordered, disjoint, non-empty typed spans as tags and merging gives those spans back |
| WordUnits.ReconstructWords | crates/uniko-bench/src/nlp_parity_main.rs:343-360 | the loop computes the specified words and word map |
| WordUnits.BuildSteps | crates/uniko-bench/src/nlp_parity_main.rs:343-360 | word indices start at 0 and grow by one exactly at each marked token |
| WordUnits.WordsArePieces | crates/uniko-bench/src/nlp_parity_main.rs:343-360 | each word is the text of exactly the tokens mapped to it, in order |
| WordUnits.RebuildsWords | crates/uniko-bench/src/nlp_parity_main.rs:343-360 | words cut into unmarked pieces with the first marked come back as they were |
| Overlap.ComputeOverlap | crates/uniko-bench/src/nlp_parity_main.rs:236-261 | the three counts are the sizes of the multiset intersection and both differences |
| Overlap.OverlapAccounts | crates/uniko-bench/src/nlp_parity_main.rs:236-261 | matched plus either surplus is the length of that side |
| Overlap.JaccardMeans | crates/uniko-bench/src/nlp_parity_main.rs:175-184 | the Jaccard index is in [0,1] and is 1 if and only if the multisets are equal |
| Overlap.JaccardIsShare | crates/uniko-bench/src/nlp_parity_main.rs:175-184 | it is the size of the intersection over that of the union |
| Overlap.BagOfWords | crates/uniko-bench/src/eval.rs:155-161 | counts each token as often as it occurs, and nothing else |
| Overlap.SingleF1 | crates/uniko-bench/src/eval.rs:30-54 | the harmonic mean of precision and recall is twice the shared tokens over all tokens |
| Overlap.F1IsHarmonic | crates/uniko-bench/src/eval.rs:30-54 | the score is the harmonic mean of precision and recall |
| Overlap.F1Means | crates/uniko-bench/src/eval.rs:30-54 | F1 is symmetric, in [0,1], 1 if and only if the bags are equal and not empty, 0 if and only if they share no token |
| WordBoundary.ContainsAtWordBoundary | crates/uniko-bench/src/eval.rs:252-270 | the search ends; it panics if and only if the needle starts with a multi-byte character and its first occurrence does not stand alone; otherwise it answers whether some occurrence, overlapping ones included, stands alone |
| WordBoundary.PanicWitness | crates/uniko-bench/src/eval.rs:238-270 | an input on which it panics, with a needle of five bytes that its caller passes on |

## Left out

- Floating point: weights are integers, embeddings and thresholds exact reals; rounding, NaN and the 1e-12 tie width of the label tally are not modelled.
- Integer widths other than the breaker's 32-bit counter: labels are not truncated to `u32`, counts do not saturate at `i64`.
- `record_failure` in a build with overflow checks: its `prev + 1` panics at the wrap, where the model wraps.
- Relaxed memory ordering: the interleavings are of sequentially consistent operations.
- Hashing: ids are the bytes that are hashed, so collisions of the 64-bit hash are not modelled.
- Consolidation cycles that a storage error ends before the audit node is written: they may leave edges and counts behind as a panic does, and are not modelled.
- Concurrent cycles, transactions, lock striping, Cypher text and the decoding of rows: the store is a map, and a batch runs alone.
- The clock of drift accounting: whether an invalidation tips an entity over is a parameter.
- Edge weights, fact embeddings, confidence values and the text that is embedded: plain expressions on the side of the cycle.
- The LLM: refined triples are a parameter, failures of the refinement are failed cycles.
- Topic names, summaries and pooled embeddings, timestamps, and the procedure matcher.
- Sentence slicing and surface normalisation around the BIO merge; stemming and article removal before F1; multi-hop and adversarial scores.
- Reading the workflow file and printing in the publish guard; crate metadata is a parameter.
- Configuration defaults, visibility rules, MIME tables, shutdown coordination, Python bindings and command lines: settled by reading one branch.
