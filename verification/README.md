# Range-addressable HNSW artifact: a verified model

An HNSW index is exported to a file of fixed-size node records that can be searched by fetching byte ranges on
demand. This project models that artifact and the tools around it and proves what they promise:

* **Search.** The resident search and the lazy, batched, speculating search are the same function of the graph and the
  distances when one candidate is expanded a round, whatever has been fetched, cached or guessed. For every batch size
  the result list holds the nearest nodes evaluated, is closed under base neighbours, and is exact once `ef` reaches
  the node count.
* **Reader.** `RangeArtifact` keeps a decoded-node cache, a page cache and counters. Every call is a method proved
  against an explicit state function, and over any run of calls every cached or returned node is the exported one.
* **Writer and layout.** Reverse Cuthill-McKee, partition grouping and the router/base split are bijections; the bytes
  written are the encoding of each node, and the reader's address arithmetic and decoder undo them.
* **Layout mathematics.** Run coalescing, the Hilbert curve, the symmetrised graph, longest-first scheduling, the
  triangle-inequality page bound, slot-array top-K, distinct-byte counting, range reads over part objects, rank-sum AUC,
  and the recall/QPS frontier.

## Reading the model

`GraphSearch.dfy` gives both searches as functions of heap contents (`ResidentSearch`, `BatchedSearch`);
`SearchSteps.dfy`, `SearchProperties.dfy` and `BatchWidth.dfy` prove what those functions do; `RangeSearch.dfy` holds the searches as the
loops they are, over `MinHeap` and `RangeArtifact` objects, each proved equal to its function. `ReadSpec.dfy` has the
reader's state (`Reading`) and how each call changes it, `RangeReader.dfy` the class, `ReaderRuns.dfy` whole runs of
calls, `LayoutAgreement.dfy` the reader against the layout simulators, `Parity.dfy` the way from an index through export,
opening and any reader calls to equal search answers, and `BatchParity.dfy` where that equality ends.

Conventions. Distances are an abstract total function of the query and the decoded node (`Dist`, built from the loop
of squared differences over an abstract `Dequantize`), without NaN. An index is well formed (`ValidIndex`) when its edges
point inside it, base degree is at most `M0`, upper degree at most `M`, levels at most `maxLevel`, and counts fit their
fields; the exporters take such an index. Float fields travel as their 32-bit patterns. The artifact is an immutable
byte sequence with a total read. Times, coordinates, recall and QPS are reals; square root, logarithm and exponential
are parameters with the laws used stated as predicates (`IsSquareRoot`, `LogExp`, `ExpOfSum`).

## Findings

* The two searches agree on every index, query, `k` and `efSearch` if and only if one candidate is expanded a round
  (`BatchParity.AgreeOnlyWhenSingle`). The default expansion batch is 8, and the parity run uses the default: on a
  five-node index of three-byte codes it compares answer 4 with answer 3 (`BatchParity.DefaultBatchDiffers`,
  `BatchParity.ExportedDiffers`). `BatchWidth.ExhaustiveBatchesAgree` says what survives for every batch size.
* Page marks are page numbers without a page size. On version 1 a page request leaves a node uncached exactly when the
  node was not cached and its page was already marked (`RangeReader.RangeArtifact.PagesCoverExactly`, and the contract of
  `PrefetchPages`). With one page size that never happens (`ReaderRuns.RunCalls`, `PagesCoverRequest`); two requests at
  two page sizes reach it (`RangeReader.RangeArtifact.ChangePageSize`). Reads stay right, because `readNode` fetches
  what is missing.
* Custom page marks survive `clearCache`. A requested node stays uncached exactly when its page was already marked and no
  run reads over its record (`RangeReader.RangeArtifact.PrefetchCustomPages`); asking, clearing and asking again is such
  a case (`RangeReader.RangeArtifact.ClearedCustomPage`).
* On a version 2 artifact the map entry of an upper-level node is no ordinal, so page mode throws exactly when such a node
  is asked for and not cached (`RangeReader.RangeArtifact.PrefetchPages`, `RangeSearch.PrefetchRound`). Opening caches them
  all and only `clearCache` drops any: a stream of page-mode queries never throws while it does not clear, and throws at
  the first query when it does and the entry point is above the base level (`Parity.PageSweep`).
* A part read past the end of a short last part can accept a whole-object reply with the wrong bytes; it resolves only
  through one (`PartSource.ResolvedPastEnd`, `PartSource.PastEndExample`), and in bounds it cannot happen.
* The AUC counts a tie as ordered when the positive is listed later. `RankAuc.TiesDecide` gives the exact condition under
  which it is the share of strictly ordered pairs, and `RankAuc.TieExample` two listings of the same data with scores 1 and 0.
* `qpsAtRecall` accepts targets within a tolerance below the span and extrapolates there;
  `ParetoFrontier.QpsOvershoots` says exactly when its answer exceeds the frontier's largest QPS, and
  `ParetoFrontier.OvershootExample` is a case.
* `uniqueRangeBytes` counts distinct positions exactly when every range that ends before it starts is absorbed by an
  earlier one; the reader logs no such range (`UniqueRanges.UniqueRangeBytes`).

## Model

| member | source | states |
|---|---|---|
| MinHeaps.MinHeap.Push | benchmarks/engine/range_artifact.js:769-777 | the array afterwards is exactly the old one with the value sifted up through a moving hole |
| MinHeaps.MinHeap.Pop | benchmarks/engine/range_artifact.js:769-777 | an empty heap gives no value; otherwise returns the old root and leaves exactly the array the hole-based sift-down produces |
| MinHeaps.MinHeap.Sorted | benchmarks/engine/range_artifact.js:776 | the same multiset in sorted order for every ordering comparator, a stable sort, the heap left as it was |
| Sorting.StableSortLexicographic | benchmarks/engine/range_artifact.js:776 | the sort orders by the comparator and keeps input order among elements that compare equal |
| MinHeaps.PushedHeap | benchmarks/engine/range_artifact.js:769-777 | a push keeps heap order, for every comparator that is an ordering |
| MinHeaps.PoppedHeap | benchmarks/engine/range_artifact.js:769-777 | a pop keeps heap order |
| MinHeaps.RootLeast | benchmarks/engine/range_artifact.js:769-777 | the root compares least with every element, so `peek` and `pop` give a minimum |
| MinHeaps.HeapSorts | benchmarks/engine/range_artifact.js:769-777 | pushing any values and popping them all yields the same multiset in sorted order |
| GraphSearch.DescendLevel | benchmarks/engine/range_artifact.js:784-797 | the descent on a level ends, no farther from the query than it began, at a node none of whose edges on that level is nearer; termination by the shrinking set of strictly nearer nodes |
| GraphSearch.NearerShrinks | benchmarks/engine/range_artifact.js:784-797 | each move of the descent leaves strictly fewer nearer nodes, the termination measure |
| GraphSearch.StartIsLastStop | benchmarks/engine/range_artifact.js:784-797 | the base level starts at node n exactly when n is the last of stops that begin at the entry point and leave every upper level from the highest down to 1, each reached by moves to the first of the nearest, strictly nearer nodes in that level's own edge list, and having none nearer there |
| GraphSearch.SearchFromLastStop | benchmarks/engine/range_artifact.js:779-954 | both searches run the base level from the last of those stops and list its result heap |
| SearchSteps.BatchMeans | benchmarks/engine/range_artifact.js:881-888 | the batch is the nearest candidates within the worst result, nearest first, no more than the batch size, and short of it only when every candidate left is beyond a full list |
| SearchSteps.OfferMeans | benchmarks/engine/range_artifact.js:934-939 | a node becomes candidate and result exactly when the list is not full or some result is strictly farther, a list grown too long then losing a farthest entry; otherwise nothing changes, a tie with the worst included |
| SearchSteps.GatherMeans | benchmarks/engine/range_artifact.js:891-898 | the nodes gathered are the unmarked ones among the edges, each once, in the order in which they are first met, and the marks grow by them |
| SearchSteps.EdgesJoin | benchmarks/engine/range_artifact.js:891-893 | the edges of two batches one after the other are their edge lists one after the other |
| SearchSteps.OneEdgeList | benchmarks/engine/range_artifact.js:891-893 | the edges of a batch of one are the base edges of its node |
| GraphSearch.RoundProgress | benchmarks/engine/range_artifact.js:880-952 | every round of the base loop marks new nodes or leaves fewer candidates, so the loop ends |
| GraphSearch.TakeBatchSplits | benchmarks/engine/range_artifact.js:881-888 | the batch and the candidates left are together exactly the candidates before, as multisets |
| GraphSearch.ExpandIsGatherThenOffer | benchmarks/engine/range_artifact.js:810-819 | marking and scoring neighbours one at a time gives the heaps and marks of marking all first and scoring after |
| GraphSearch.BatchOfOneIsResident | benchmarks/engine/range_artifact.js:806-952 | from any state the batched loop with batch one ends with the result heap of the resident loop |
| GraphSearch.LazyRefinesResident | benchmarks/engine/range_artifact.js:779-953 | with single expansion the lazy search returns exactly the id list of the resident search, ties and order included |
| SearchProperties.OfferKeepsInvariant | benchmarks/engine/range_artifact.js:934-939 | scoring one more node keeps the result heap the `ef` nearest of the nodes evaluated, ids distinct, both heaps in order |
| SearchProperties.OfferKeepsFrontier | benchmarks/engine/range_artifact.js:934-939 | scoring keeps the frontier property: a result is expanded or still a candidate, and a dropped candidate is no nearer than the worst result |
| SearchProperties.RoundKeeps | benchmarks/engine/range_artifact.js:880-952 | one round, for every batch size, keeps the invariant and the frontier over the enlarged set of marked nodes |
| SearchProperties.LoopKeeps | benchmarks/engine/range_artifact.js:880-952 | over the whole loop both hold at exit, the stop condition holds, and every node evaluated is reachable from the start by base edges |
| SearchProperties.ClosedOnExit | benchmarks/engine/range_artifact.js:873-953 | for every batch size the result heap holds the `ef` nearest nodes evaluated, ids distinct, and every base neighbour of a result was evaluated and is a result or no nearer than any of them |
| SearchProperties.ExhaustiveSeesReach | benchmarks/engine/range_artifact.js:873-953 | with `ef` at least the node count the nodes evaluated are exactly those reachable by base edges from the descended node |
| SearchProperties.SearchListsNearestSeen | benchmarks/engine/range_artifact.js:953 | the returned list is the `k` nearest of the nodes evaluated, nearest first, each once |
| SearchProperties.ExhaustiveSearchExact | benchmarks/engine/range_artifact.js:824-953 | with `ef` at least the node count the answer is the exact `k` nearest of the reachable nodes, for every batch size |
| BatchWidth.WideBatchesCanDiffer | benchmarks/engine/range_artifact.js:779-954 | on a five-node graph with distances 10, 5, 6, 1 and 0 the resident search answers node 3 and every batch of two or more the nearer node 4 |
| BatchWidth.ExhaustiveBatchesAgree | benchmarks/engine/range_artifact.js:824-953 | with `ef` at least the node count every batch size answers with the resident search's distances position by position, and with its ids when no two nodes tie |
| BatchParity.AgreeOnlyWhenSingle | benchmarks/engine/range_artifact.js:779-954 | the lazy and the resident search agree on every index, query, `k` and `efSearch` if and only if the expansion batch is one |
| BatchParity.DefaultBatchDiffers | benchmarks/engine/range_artifact.js:2289-2294 | the parity query with its default batch finds different answers on an artifact of a concrete index |
| BatchParity.ExportedDiffers | benchmarks/engine/range_artifact.js:2269-2296 | that index exports, opens, and fails the parity query |
| RangeSearch.SnapshotSearch | benchmarks/engine/range_artifact.js:779-822 | the two-phase resident search as its loops, equal to `ResidentSearch` of the index: from the entry point down every upper level (`StartIsLastStop`), then the base level from there (`SearchFromLastStop`), over the distances of `DistMeans` |
| RangeSearch.ResidentPass | benchmarks/engine/range_artifact.js:789-796 | one pass over the edges of a node moves to each strictly nearer one, as `Scan` does |
| RangeSearch.DescendResidentLevel | benchmarks/engine/range_artifact.js:784-797 | the level loop equals `DescendLevel` |
| RangeSearch.RunResident | benchmarks/engine/range_artifact.js:806-820 | the base loop equals `ResidentLoop` |
| RangeSearch.L2Snapshot | benchmarks/engine/range_artifact.js:756-767 | the loop over a row of the flat code array gives the distance of the node, which `DistMeans` says is the squared distance to the decoded row |
| RangeSearch.L2Node | benchmarks/engine/range_artifact.js:746-754 | the loop over a decoded record gives the distance of the node, which `NodeDistanceMeans` says is the squared distance to the decoded coordinates |
| RangeSearch.NodeDistanceMeans | benchmarks/engine/range_artifact.js:746-754 | it is the squared distance from the query to the dequantized codes, never negative, and zero exactly when every coordinate of the query equals the one its code stands for |
| RangeSearch.DistMeans | benchmarks/engine/range_artifact.js:756-767 | for a node of the index it is the squared distance to the vector dequantized from its scale, its offset and its row of the code array, and zero exactly when that is the query |
| RangeSearch.Consider | benchmarks/engine/range_artifact.js:934-939 | scoring one neighbour is `Offer` on both heaps |
| RangeSearch.PrefetchRound | benchmarks/engine/range_artifact.js:834-848 | throws exactly in page mode on version 2 when an uncached upper-level node is asked for, then changing nothing; otherwise what is cached afterwards, mode by mode |
| RangeSearch.Speculate | benchmarks/engine/range_artifact.js:903-951 | names, each once, exactly the unvisited, uncached nodes outside the avoided set that are base neighbours of a candidate looked at: one that is cached, within the worst result, and has fewer than the look-ahead cached candidates before it in distance order; changes nothing |
| RangeSearch.FillBatch | benchmarks/engine/range_artifact.js:881-888 | the batch loop is `TakeBatch` |
| RangeSearch.MarkNeighbours | benchmarks/engine/range_artifact.js:891-898 | reading the batch and marking its new neighbours gives exactly the ordered list and marks of the graph, whatever the cache held |
| RangeSearch.LazySearch | benchmarks/engine/range_artifact.js:824-954 | from any cache, counters, gap, page mode and look-ahead the ids are the batched search of the exported index, which descends every upper level (`StartIsLastStop`) and lists the base level from there (`SearchFromLastStop`), and those of the resident search when one candidate is expanded a round; cached nodes stay cached; it fails only in page mode on version 2 with an upper-level node uncached, and always when the entry point is that node |
| RangeReader.RecordDecodes | benchmarks/engine/range_artifact.js:166-191 | decoding the record of a node gives that node, and its first fields are the id and level |
| RangeReader.SlotDecodes | benchmarks/engine/range_artifact.js:246-318 | at a slot's address an exported file holds a whole record that decodes to the node laid out there |
| RangeReader.RangeArtifact.constructor | benchmarks/engine/range_artifact.js:337-382 | opening reads back every header field and the location map, caches exactly the router records, and leaves the counters at zero |
| RangeReader.Open | benchmarks/engine/range_artifact.js:337-345 | opening succeeds exactly when the file starts with the magic number |
| RangeReader.RangeArtifact.AddressIsSlot | benchmarks/engine/range_artifact.js:401-414 | the address computed from the location map, router bit and all, is the address of the node's slot |
| RangeReader.RangeArtifact.Prefetch | benchmarks/engine/range_artifact.js:415-463 | afterwards every requested node is cached, and cache, counters and logged ranges are those of reading the coalesced runs of the missing slots: a request and a logged byte range for each run, its records in bytes, a decode for each node newly cached |
| RangeReader.RangeArtifact.PrefetchLocations | benchmarks/engine/range_artifact.js:464-506 | the same for byte addresses, a byte gap acting as that many whole records |
| RangeReader.RangeArtifact.ReadNode | benchmarks/engine/range_artifact.js:395-400 | returns the exported node from any cache state; a miss is one request for exactly that record, counted in requests, bytes, decoded nodes and the log |
| RangeReader.RangeArtifact.ReadNodeDirect | benchmarks/engine/range_artifact.js:560-567 | returns the exported node and changes no state |
| RangeReader.RangeArtifact.ClearCache | benchmarks/engine/range_artifact.js:391-394 | empties node and page cache and nothing else |
| RangeReader.RangeArtifact.ResetStats | benchmarks/engine/range_artifact.js:385-390 | zeroes the counters and the range log and nothing else |
| RangeReader.RangeArtifact.PrefetchPages | benchmarks/engine/range_artifact.js:520-559 | fails, with no state change, exactly when an uncached upper-level node of a version 2 file is asked for; else reads exactly the unmarked pages needed, in order, and adds to the counters one request a page, the bytes of the records on those pages, a decode for each node newly cached and each page's byte range; on version 1 a requested node ends cached exactly when it was cached or its page was not marked |
| RangeReader.RangeArtifact.RecordsPerPage | benchmarks/engine/range_artifact.js:521 | the most whole records that fit the page size, and at least one |
| RangeReader.RangeArtifact.OrdinalFails | benchmarks/engine/range_artifact.js:525-526 | a map entry is refused as an ordinal exactly for the upper-level nodes of a version 2 file |
| RangeReader.RangeArtifact.PagesCoverExactly | benchmarks/engine/range_artifact.js:520-531 | on version 1 a requested node is cached after the page reads exactly when it was cached before or its page was not marked |
| RangeReader.RangeArtifact.PagesCoverRequest | benchmarks/engine/range_artifact.js:520-559 | hence the request is covered when every marked page is truly loaded at that page size, which page reads preserve |
| RangeReader.RangeArtifact.PageSizeChangeMisses | benchmarks/engine/range_artifact.js:520-531 | after page 0 was read at one record a page, a request at two records a page for the second record reads nothing and leaves it uncached |
| RangeReader.RangeArtifact.ChangePageSize | benchmarks/engine/range_artifact.js:520-559 | clearing, asking for the first record at one record a page and then for the second at two makes no second request and leaves the second node uncached |
| RangeReader.RangeArtifact.PrefetchCustomPages | benchmarks/engine/range_artifact.js:568-597 | reads the unmarked learned pages in the order in which the request first asks for them and the rest by coalesced runs; requests, bytes, decoded nodes and the log grow by exactly those of the pages and then the runs; a requested node is cached afterwards exactly when it was cached, is off the marked pages, or lies under a run, and the last never happens at gap zero |
| RangeReader.RangeArtifact.ClearedCustomPage | benchmarks/engine/range_artifact.js:391-394 | asking for a node on a custom page, clearing the cache and asking again makes no request and leaves the node uncached |
| RangeReader.RangeArtifact.LoadRouterSegment | benchmarks/engine/range_artifact.js:507-519 | caches exactly the router slots and counts nothing |
| RangeReader.RangeArtifact.LoadOrdinalPrefix | benchmarks/engine/range_artifact.js:598-618 | caches exactly the first records of the file, whatever the chunk size, and counts nothing |
| RangeReader.RangeArtifact.LoadNodeSet | benchmarks/engine/range_artifact.js:619-632 | caches exactly the requested nodes, reports how many were new, and resets the counters only if any was |
| RangeReader.RangeArtifact.LoadUpperLayerNodes | benchmarks/engine/range_artifact.js:633-649 | caches exactly the nodes with a level above zero, reports how many were new, and resets the counters only if any was |
| ReadSpec.RunsCoverRequest | benchmarks/engine/range_artifact.js:415-506 | reading the coalesced runs of the missing slots caches every requested node |
| ReadSpec.NoOverfetchAtGapZero | benchmarks/engine/range_artifact.js:395-400 | with gap zero the runs hold exactly the requested nodes that were missing |
| ReadSpec.AfterRunsTotals | benchmarks/engine/range_artifact.js:432-451 | totals over any runs: requests, bytes, log length, nodes newly decoded and the new cache |
| ReadSpec.AfterRunsCounted | benchmarks/engine/range_artifact.js:432-451 | each run is one request, logged as the bytes from its first record to its last, its records counted in bytes and its uncached nodes as decoded |
| ReadSpec.SortedValuesAreSlots | benchmarks/engine/range_artifact.js:464-473 | sorting the computed addresses (or ordinals) lists the missing slots in ascending order, the two segments sharing one record grid |
| ReadSpec.AfterPagesCached | benchmarks/engine/range_artifact.js:532-558 | page reads add to the cache exactly the nodes of the pages read |
| ReadSpec.AfterPagesTotals | benchmarks/engine/range_artifact.js:535-557 | over any distinct pages: one request and one logged byte range a page, cut at the end of the file; bytes for the records on the pages, a short last page included; one decode for each node newly cached |
| ReadSpec.CustomPagesCached | benchmarks/engine/range_artifact.js:583-595 | custom page reads add to the cache exactly the nodes of the pages listed |
| ReadSpec.AfterCustomPagesTotals | benchmarks/engine/range_artifact.js:583-595 | over any distinct learned pages: one request a page, bytes for the nodes on them, one decode for each node newly cached, and the marker range of each page logged in order |
| ReadSpec.ColdSlots | benchmarks/engine/sift_layout_trace.js:598-602 | on an empty cache the slots the reader misses are the positions the simulator sorts |
| LayoutAgreement.ColdPrefetch | benchmarks/engine/range_artifact.js:415-506 | on a cold cache the requests and bytes of a prefetch are those both layout simulators compute, for record gaps and byte gaps |
| CustomPages.PageLayout.AddCustomPage | benchmarks/engine/range_artifact.js:2100-2114 | adds one page of the first unplaced ids, up to the page size, or nothing and false when all are placed; every placed id stays mapped to its page |
| ReaderRuns.Step | benchmarks/engine/range_artifact.js:385-649 | any reader call keeps the cache coherent, answers reads with the exported node, and keeps marked pages loaded at a fixed page size |
| ReaderRuns.RunCalls | benchmarks/engine/range_artifact.js:385-649 | over any run of calls every read returns the exported node, so answers do not depend on history; without `clearCache` nothing leaves the cache; with one page size marked pages stay loaded |
| Parity.ExportAndOpen | benchmarks/engine/range_artifact.js:245-382 | a version 2 export opens exactly when its header fields fit, answers any reads with the exported nodes, and keeps all upper-level nodes cached unless the cache is cleared |
| Parity.ExportAndRead | benchmarks/engine/range_artifact.js:245-318 | nodes exported to a version 2 file, opened, and read among any other reader calls come back as they were |
| Parity.ExportAndSearch | benchmarks/engine/range_artifact.js:245-954 | export, open, any reader calls, then a lazy search: with single expansion the ids are the resident search's on the original index; it fails only if a header field does not fit, or in page mode after a `clearCache` |
| Parity.PageSweep | benchmarks/engine/range_artifact.js:1233-1258 | a stream of page-mode queries is answered throughout while no upper-level node is missing and the cache is not cleared, and fails at once on version 2 when it is cleared and the entry point is above the base level |
| Parity.CheckQuery | benchmarks/engine/range_artifact.js:2289-2294 | one query of the parity run: both answers as functions of the index, equal with single expansion, equal distances when `ef` covers the index |
| Parity.ExactMatches | benchmarks/engine/range_artifact.js:2288-2306 | over all queries the count of exact matches is the number of queries, with single expansion |
| RecordCodec.DecodeEncode | benchmarks/engine/range_artifact.js:166-191 | decoding an encoded node gives back id, level, base and upper edges, codes, scale and offset |
| RecordCodec.LittleEndian | benchmarks/engine/range_artifact.js:166-191 | two- and four-byte fields are written low byte first |
| RecordCodec.RecordIs | benchmarks/engine/range_artifact.js:162-191 | the record of a node word by word: id, level, degree, upper degrees, row of codes, scale, offset, base edges and upper edges each at its own offset, absent edges all ones |
| RecordIO.WriteNodeRecord | benchmarks/engine/range_artifact.js:166-191 | whatever the reused buffer held, it ends as the encoding of the node |
| RecordIO.DecodeNode | benchmarks/engine/range_artifact.js:650-679 | the decoding loop computes `Decode` for every record-sized buffer, valid or not |
| ArtifactLayout.ReverseCuthillMckee | benchmarks/engine/range_artifact.js:118-148 | the result is a bijection that gives position count - 1 - q to the node listed q-th; in the listing each component opens with a remaining node of least degree once nothing earlier leads outside, children follow in the order of their first listed parents, and siblings from low degree to high |
| ArtifactLayout.ListingUnique | benchmarks/engine/range_artifact.js:121-143 | that description has exactly one listing, so it pins down the queue discipline and every sort of the source |
| ArtifactLayout.ListingMeans | benchmarks/engine/range_artifact.js:118-143 | each node listed is reached from an earlier one, or nothing earlier leads on and it has the least degree, then the least id, of those unlisted; of two nodes first reached from the same one, the one of lower degree, then lower id, is listed earlier |
| ArtifactLayout.AppendChild | benchmarks/engine/range_artifact.js:133-141 | queueing the next neighbour of the node being expanded, in degree order, keeps the listing in that order |
| ArtifactLayout.QueueNeighbours | benchmarks/engine/range_artifact.js:135-141 | all neighbours end up listed, the new ones queued once each behind the rest, low degree first, and the queue discipline is kept |
| ArtifactLayout.PartitionPermutation | benchmarks/engine/range_artifact.js:150-160 | the two maps are mutually inverse bijections, each partition is contiguous, and inside it the fallback order is kept |
| ArtifactLayout.SplitLayout | benchmarks/engine/range_artifact.js:257-281 | router ids are the upper-level nodes in order and base ids the rest, together a permutation; the map has the router bit set exactly for the former and indexes each segment |
| ArtifactLayout.SelectKeepsOrder | benchmarks/engine/range_artifact.js:260-268 | router ids and base ids stand in the order they had |
| ArtifactFile.ExportRangeArtifact | benchmarks/engine/range_artifact.js:193-243 | the bytes written are an artifact of the index in the given order, unless a header field does not fit 32 bits |
| ArtifactFile.ExportSplitRangeArtifact | benchmarks/engine/range_artifact.js:245-318 | the same for the two-segment file, whose layout is shown valid |
| ArtifactFile.HeaderValues | benchmarks/engine/range_artifact.js:204-219 | every header word is read back as written, the map starting at byte 128 or 256 by version |
| ArtifactFile.MapValues | benchmarks/engine/range_artifact.js:373-375 | the location map is read back as written |
| ArtifactFile.MapEntry | benchmarks/engine/range_artifact.js:257-299 | the map entry of the node in slot s is its position in its segment, with bit 31 set in the router segment |
| ArtifactFile.FileRecord | benchmarks/engine/range_artifact.js:228-236 | at its address counted from the start of the file, slot s holds the word-by-word record of the node laid out there |
| RangeCoalescing.RunsCoalesced | benchmarks/engine/range_artifact.js:452-463 | runs cover every slot, are pairwise more than the gap apart, start and end on requested slots, and have no hole longer than the gap |
| RangeCoalescing.RunsFewest | benchmarks/engine/range_artifact.js:452-463 | no set of runs that covers the slots without a hole longer than the gap has fewer runs |
| RangeCoalescing.CoveredBounded | benchmarks/engine/range_artifact.js:426-463 | the runs hold at least the n slots and at most n + (n - runs) * gap |
| RangeCoalescing.ByteGapIsSlotGap | benchmarks/engine/range_artifact.js:494-503 | on the record grid the byte-gap test is the slot-gap test with the gap divided by the record size |
| RangeCoalescing.CoalescedRuns | benchmarks/engine/sift_layout_trace.js:598-621 | the simulator's counts are the number of runs of the distinct positions and the slots and bytes they cover |
| RangeCoalescing.CoalesceRows | examples/static-wiki-pack/layout_sim.py:53-63 | range count and filler bytes are those of the runs at the gap in whole rows; exact also for repeated ids and for an empty list |
| HilbertCurve.IndexIsBijection | benchmarks/engine/sift_layout_trace.js:453-470 | index and cell are mutually inverse between the grid of side 2^n and 0 to 4^n - 1 |
| HilbertCurve.CurveEnds | benchmarks/engine/sift_layout_trace.js:453-470 | the curve starts at one corner of the grid and ends at the next |
| HilbertCurve.ConsecutiveAdjacent | benchmarks/engine/sift_layout_trace.js:453-470 | consecutive indices are cells that share an edge, for every grid size |
| HilbertCurve.Mirrored | benchmarks/engine/sift_layout_trace.js:462-466 | mirroring a coordinate complements its low bits, for negative coordinates too |
| HilbertCurve.Hilbert2dIndex | benchmarks/engine/sift_layout_trace.js:453-470 | the loop, whose coordinates go negative, computes the recursive index for 1 to 16 bits |
| SymmetricGraph.RowIsNeighbours | benchmarks/engine/sift_layout_trace.js:687-712 | a row before compaction holds exactly the other nodes joined by an edge in either direction |
| SymmetricGraph.FillAdjacency | benchmarks/engine/sift_layout_trace.js:705-713 | the fill pass leaves in each row's window exactly the row's contributions in order of arrival |
| SymmetricGraph.CompactRow | benchmarks/engine/sift_layout_trace.js:715-731 | sorting and in-place dedup leave the row's elements strictly increasing, and every other cell as it was |
| SymmetricGraph.Handshake | benchmarks/engine/sift_layout_trace.js:714-732 | the degree sum is twice the number of undirected edges, so halving it is exact |
| SymmetricGraph.BuildSymmetricAdjacency | benchmarks/engine/sift_layout_trace.js:687-733 | each row ends as exactly the node's neighbours in the symmetric relation, strictly increasing, and the reported count is the number of undirected edges |
| RoundLatency.LoadsSumToTotal | benchmarks/engine/range_artifact.js:1159-1166 | the lane loads of any assignment add up to the total work |
| RoundLatency.LargeJobsFit | benchmarks/engine/range_artifact.js:1159-1166 | when the last job is over a third of what another assignment achieves, the least loaded lane has room for it within that time |
| RoundLatency.LptStep | benchmarks/engine/range_artifact.js:1159-1166 | placing the next job longest-first keeps every lane within 4/3 - 1/(3m) of every assignment |
| RoundLatency.Schedule | benchmarks/engine/range_artifact.js:1159-1166 | the lane loop puts each job on the first of the lanes that carry least by then, carries every job once and keeps both bounds for every lane |
| RoundLatency.InTurnUnique | benchmarks/engine/range_artifact.js:1159-1166 | only one assignment puts each job on the first least loaded lane |
| RoundLatency.SizesMean | benchmarks/engine/range_artifact.js:1156-1158 | the request sizes are the ranges from the largest down or equal shares of the bytes, and add up to the bytes asked for |
| RoundLatency.RoundLatencyMs | benchmarks/engine/range_artifact.js:1153-1168 | each request takes the fixed time and its bytes over the bandwidth, the largest go first, each to the first lane free; the latency is the longest lane, at least work/m and the largest job, at most work/m + (1 - 1/m) * largest, and within 4/3 - 1/(3m) of every assignment of the jobs to lanes; one lane takes a fixed time for each request and all the bytes over the bandwidth |
| PageBound.CauchySchwarz | benchmarks/engine/range_cluster_page_sim.js:754-766 | the squared cross sum is at most the product of the squared distances, in every dimension |
| PageBound.Triangle | benchmarks/engine/range_cluster_page_sim.js:754-766 | distances obey the triangle inequality, in every dimension |
| PageBound.DistanceSplits | benchmarks/engine/range_cluster_page_sim.js:756-760 | the squared distance is a sum over the coordinates: it splits wherever the vectors are cut, and a single coordinate gives its difference squared |
| PageBound.ComputeRadii | benchmarks/engine/range_cluster_page_sim.js:185-197 | each partition's radius is the largest distance of a member from its centroid, or zero |
| PageBound.PageBoundSound | benchmarks/engine/range_cluster_page_sim.js:182-197 | with the computed radii the bound never exceeds the squared distance from the query to any member of the page; `BoundIsGreatest` says no larger number does that for every vector within the radius |
| PageBound.BoundIsTight | benchmarks/engine/range_cluster_page_sim.js:761-763 | some vector within the radius is exactly that far from the query: the query itself inside the ball, else the vector at the radius on the way to it |
| PageBound.BoundIsGreatest | benchmarks/engine/range_cluster_page_sim.js:761-763 | the bound is the greatest number not above the squared distance to any vector within the radius |
| PartitionMembers.MembersExact | benchmarks/engine/range_cluster_page_sim.js:169 | the member list of a partition is exactly its rows, increasing |
| PartitionMembers.GroupMembers | benchmarks/engine/range_cluster_page_sim.js:162-169 | the offset table cuts the member array into exactly the member list of each partition |
| TopSlots.Slots.Offer | benchmarks/engine/range_cluster_page_sim.js:793-801 | after one more row the slots hold the K nearest rows seen, padded with Infinity, no id twice, and the kept maximum is their largest distance |
| TopSlots.Slots.RecomputeMax | benchmarks/engine/range_cluster_page_sim.js:799-800 | the maximum restarted at zero is the largest slot because distances are not negative |
| TopSlots.Slots.ScanRows | benchmarks/engine/sketch_rerank_e2e.js:169-191 | the same over any list of distinct rows, in any order |
| TopSlots.Slots.ScanPages | benchmarks/engine/range_cluster_page_sim.js:776-802 | after any list of distinct pages the slots hold the K nearest rows of those pages |
| TopSlots.PrunedPageIrrelevant | benchmarks/engine/range_cluster_page_sim.js:754-766 | a page whose bound reaches the worst slot holds no row that would be stored |
| PartSource.PlanPieces | benchmarks/engine/sketch_rerank_e2e.js:260-273 | the pieces tile the range, none empty, each inside one part and running to the end of that part or of the range; planning fails exactly when the range runs past the last part, at the first position past it |
| PartSource.AcceptedBytes | benchmarks/engine/sketch_rerank_e2e.js:276-281 | an accepted honest reply carries the file's bytes for its piece |
| PartSource.WrongOnlyPastTheEnd | benchmarks/engine/sketch_rerank_e2e.js:276-281 | an accepted reply is wrong only for a range past the end of its part, and then is a whole part of the asked length |
| PartSource.Acceptable | benchmarks/engine/sketch_rerank_e2e.js:276-281 | some honest reply is accepted exactly when the range lies in the part or has the part's length |
| PartSource.OutcomeMeans | benchmarks/engine/sketch_rerank_e2e.js:282-286 | a piece is done exactly when one of its first three replies is accepted and rejected exactly when three failed |
| PartSource.ProgressIsOutcome | benchmarks/engine/sketch_rerank_e2e.js:274-290 | the progress of a piece depends only on its own replies, however events interleave |
| PartSource.RunAssembles | benchmarks/engine/sketch_rerank_e2e.js:274-291 | in every order and with every pattern of failures the buffer holds the file's bytes where a piece is done and zero elsewhere |
| PartSource.ReadReturnsSlice | benchmarks/engine/sketch_rerank_e2e.js:260-294 | if each piece has an acceptable reply after at most two failures the buffer is that slice of the joined parts |
| PartSource.ResolvedPastEnd | benchmarks/engine/sketch_rerank_e2e.js:260-294 | a read past the end resolves only if some server answered with a whole part of just the length asked for |
| PartSource.PastEndExample | benchmarks/engine/sketch_rerank_e2e.js:276-281 | three bytes from position one of a three-byte object resolve with its bytes from zero |
| PartSource.OrderIrrelevant | benchmarks/engine/sketch_rerank_e2e.js:274-291 | two runs that give each piece the same replies end in the same state |
| PartSource.PartRead.Completed | benchmarks/engine/sketch_rerank_e2e.js:274-287 | one fetch ending changes the shared buffer and the piece's progress as the transition says, and nothing else |
| PartSource.PartRead.Settled | benchmarks/engine/sketch_rerank_e2e.js:291 | resolved exactly when every piece is done, rejected exactly when some piece is |
| UniqueRanges.UniqueRangeBytes | benchmarks/engine/range_artifact.js:1064-1082 | the sweep returns the number of distinct positions covered, less the lengths of the ranges that end before they start unless an earlier range absorbs them; it is that number exactly when all such ranges are absorbed |
| UniqueRanges.CoveredPermuted | benchmarks/engine/range_artifact.js:1064-1082 | the figure does not depend on the order of the ranges |
| UniqueRanges.MoreReads | benchmarks/engine/range_artifact.js:1064-1082 | appending ranges never lowers it, and raises it by at most their own distinct positions |
| UniqueRanges.AtMostBilled | benchmarks/engine/range_artifact.js:1064-1082 | it is at most the summed lengths, with equality exactly when no position is read twice |
| RankAuc.OrderIsLater | examples/legacy/03-edge-docs-search/train_student.py:568 | the stable order puts higher scores later and ties in listing order |
| RankAuc.RankSumCounts | examples/legacy/03-edge-docs-search/train_student.py:568-571 | after any number of ranks handed out, the positives' ranks add up to their triangle number plus the ordered pairs so far |
| RankAuc.RankSumIsPairCount | examples/legacy/03-edge-docs-search/train_student.py:568-572 | the rank sum less P(P+1)/2 is exactly the number of pairs with the positive later in the order |
| RankAuc.AucIsPairFraction | examples/legacy/03-edge-docs-search/train_student.py:563-572 | the score lies in 0 to 1 and is that number of pairs over all pairs |
| RankAuc.TiesDecide | examples/legacy/03-edge-docs-search/train_student.py:563-572 | it is the share of strictly ordered pairs exactly when no positive ties a negative listed before it |
| RankAuc.TieExample | examples/legacy/03-edge-docs-search/train_student.py:563-572 | two listings of the same tied scores give 1 and 0 |
| ParetoFrontier.FrontierCount | benchmarks/engine/pareto_frontier.js:1245-1251 | the frontier is the multiset of points no other dominates |
| ParetoFrontier.DroppedHasKeptDominator | benchmarks/engine/pareto_frontier.js:1245-1251 | every dropped point is dominated by a kept one |
| ParetoFrontier.FrontierIsCurve | benchmarks/engine/pareto_frontier.js:1250-1251 | along the sorted frontier QPS never rises, and two points agree in recall exactly when they agree in QPS |
| ParetoFrontier.FrontierIdempotent | benchmarks/engine/pareto_frontier.js:1245-1251 | the frontier of a frontier is itself, in the same order |
| ParetoFrontier.QpsInsideSpan | benchmarks/engine/pareto_frontier.js:1255-1272 | within the recall span there is always an answer, between the end QPS values; `QpsEqualFactors` and `QpsMeetsPoints` fix it |
| ParetoFrontier.QpsEqualFactors | benchmarks/engine/pareto_frontier.js:1265-1268 | between two neighbouring points, and down to the tolerance below the first, equal steps in recall change QPS by equal factors |
| ParetoFrontier.QpsMidpoint | benchmarks/engine/pareto_frontier.js:1265-1268 | half way between two neighbouring points the square of the answer is the product of their QPS |
| ParetoFrontier.QpsAnswered | benchmarks/engine/pareto_frontier.js:1255-1271 | a frontier of two or more answers exactly the targets at most the tolerance outside its span, a lone point those strictly closer; at and past the last point the answer is its QPS |
| ParetoFrontier.QpsNeverRises | benchmarks/engine/pareto_frontier.js:1255-1272 | over all targets with an answer it never rises with the target |
| ParetoFrontier.QpsMeetsPoints | benchmarks/engine/pareto_frontier.js:1255-1272 | at a frontier point's recall the answer is that point's QPS |
| ParetoFrontier.QpsOvershoots | benchmarks/engine/pareto_frontier.js:1260-1268 | the answer exceeds the largest QPS exactly for targets below the span of a frontier that does not start flat |
| ParetoFrontier.OvershootExample | benchmarks/engine/pareto_frontier.js:1260-1268 | half a tolerance below a two-point frontier the answer is above both points |
| ParetoFrontier.UniqueSortedTargets | benchmarks/engine/pareto_frontier.js:1289-1300 | kept targets are inputs more than the tolerance apart, and every input has a kept one at most the tolerance below it |
| ParetoFrontier.ObservedAnswered | benchmarks/engine/pareto_frontier.js:1302-1337 | each frontier point has a kept target with an answer no worse than its QPS; a lone point has one only strictly within the tolerance |
| Finite.NearestCountsForced | benchmarks/engine/range_cluster_page_sim.js:793-801 | which K rows are kept is forced up to ties: at every threshold the kept count is the smaller of K and the rows seen within it |

## Left out

- `rounds` of `lazySearch` (per-round request, byte and range records, phase labels, the `traceRounds` option): only the returned ids are modelled.
- File descriptors, HTTP, timers and back-off delays, hashing, manifests, `inspectArtifact`, CSV/JSON output and argument parsing.
- The sweep drivers, `summarize`, percentiles, recall averages and `overlapAtK`: they repeat the modelled searches and average; of `runParity` the comparison of the two answers is modelled.
- Snapshot parsing, METIS partition file reading and `.fvecs` reading: the model starts from a well-formed parsed index and a given partition.
- IEEE rounding, infinities (the latency at bandwidth zero among them) and NaN: distances, times, coordinates and scores are reals (an unused top-K slot has an explicit Infinity), and the 32-bit float fields are bit patterns.
- Negative or fractional gaps, page sizes, look-ahead counts and range lengths: these are natural numbers in the model.
- RangeReader.Open: a file that has the magic number but is not an exported artifact is not modelled; the source checks nothing else on opening.
- RangeSearch.LazySearch: in page mode on version 2, with an upper-level node missing but the entry point cached, whether the search throws depends on whether it comes to ask for a missing node; each round is exact (`RangeSearch.PrefetchRound`), the whole search is not.
- RangeReader.RangeArtifact.PrefetchPages: on version 2 the pages read are those the ordinals of the map entries name, which need not hold the requested nodes; only coherence and the exact new state are stated there.
- SearchProperties.ClosedOnExit: says nothing about recall against the true nearest neighbours, which the graph search does not promise below an exhaustive `ef`.
- BatchWidth.ExhaustiveBatchesAgree: sufficient, not necessary; below an exhaustive `ef` whether a wide batch changes the answer depends on the whole course of the search, and no condition read off before the call decides it.
- ParetoFrontier.UniqueSortedTargets: all targets are finite reals, so the filter for finite numbers has nothing to drop; `evenlySpacedTargets` and the assembly of the comparison table are not modelled.
- PartSource.PartRead.Completed: the buffer is written in one step when a reply is accepted; what a rejected read leaves in flight is not modelled.
- `bfsPermutation`, the other layout traces and `replaySearch`: the same queue and search loops as those modelled.
- `sketchSearch` beyond the bounded candidate scan: the final step sorts the exact distances of the candidates it has read.
- `chain_order`, k-means, PCA, teacher and student training, `choose_weak_threshold`, `extract_feature_records`, torch and numpy matrix code, plotting, the browser pages and the Worker.
- Pikelet, usearch, hnswlib and faiss calls and WASM heaps: foreign code that is not part of this repository's text.
