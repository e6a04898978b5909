# Vector index storage and search, verified

This project models the core of a vector index library in Dafny 4.11 and proves what the
library is for. `dafny verify dfyconfig.toml` checks everything.

**The DiskANN v1 file.** `IndexFile` writes a whole file (header, PQ codebook, packed row IDs, PQ
codes, row-ID order, adjacency index, adjacency pages, vectors) and proves that every section is
filled exactly and that the file ends at the length its header states. `IndexReader` proves that a
reader of the bytes alone gets back the header, the codebook and, for every node, its row ID,
neighbour list, PQ code and vector. `PreparedIndex` extends this to the index in memory: relabelling, writing and
reading back keeps every node's data and every edge. Underneath are the canonical delta-varint list
codec (the unsigned LEB128 shape of section 7.6 of DWARF v5), which always takes the shorter form,
the page planner and writer, the index with u64 block bases and u16 relative offsets, and the two validators. Acceptance is exact: an
adjacency section passes if and only if it is, byte for byte, what the writer emits at the locators
of its index for the lists read from it.

*An edge case.* An empty list that is planned right after an exactly full page gets byte offset
4096. The index stores absolute offsets, so a reader sees that list at the start of the next page.
`PlannedIndexAccepted` proves that the reader accepts the planned index if and only if no list that
matters starts there (any list when vectors are interleaved, the last list otherwise). `RefusedGraphs`
plans one graph of each kind. Both are fully reachable from node 0, as graph construction demands;
whether construction ever yields such a graph is not modelled. A graph whose lists that matter are
not empty is always readable.
Relative offsets, on the other hand, never exceed 15 * 4096.

**Row IDs.** Frame-of-reference packing ORs deltas into shared bytes. The payload is proved to be
the number that the fields pack to, random access and the sequential visitor return every ID, and
the validator of the persisted order accepts exactly one sequence: the one that sorting gives.

**Concurrent caches.** The shared window cache and the page validation cache are state machines over
arbitrary threads. Single flight, agreement with the file, accounting, capacities, one validator per
page, agreement of all verdicts and absence of lost wake-ups are proved for every run. The linked
LRU inside the window cache is a class proved to refine a recency sequence. If a resize is only
called while no other is under way, the shard capacities add up to the latest total whenever none is
under way. The operations of one reader, which alone resizes, meet that condition. Overlapping
resizes can leave capacities that sum to neither total: `OverlappingResizesMix` gives the run for
every cache with more than one shard, and `OneTotalIffOneStorer` says when they do not.

**Search.** The incremental, chunked, seeded batch form of progressive IVF search is proved to give
every query what the single-query loop gives it, at the first of n, 2n, 4n, ... lists that suffices.
Early-abandoning L2 kernels are exact for every
rounding addition that is monotone and never gives less than an operand, as addition
(section 5.4.1) rounded to nearest (section 4.3.1) of IEEE 754-2019 is; were addition exact, every
kernel would give the sum of all terms. Quantized FastScan is within
m * range / 255 of the exact distance, from below, with no u16 overflow.

**Smaller machines.** Breadth-first relabelling, whose order is proved unique, with in-place
remapping, the memory budget of a reader and its clones, reservoir sampling, and the C++ re-entrancy-detecting mutex. The budget
survives every batch: the reader may clone workers, preload while workers without its preload exist,
and refresh them later. A worker that preloaded by itself could exceed the budget, with the exact
condition in `BudgetWithClones`; the callers never make that run.

Bytes are naturals below 256 and machine integers carry explicit bounds; floats are ranks, reals or
bit patterns, as each module says. Reads are slices of a fixed byte sequence. Lock-protected regions
and single atomics are atomic steps; the validation cache models its lock and condition variable
explicitly.

Where the code and its documentation differ, the code is followed: the documentation bounds a
relative offset by 65535, the code never exceeds 61440; the batch search documentation does not say
that a seed row at distance `f32::MAX` is dropped, so equality of results is stated for the entries
that are not padding.

## Model

| member | source | states |
|---|---|---|
| `AdjacencyList.ReadWrittenVarint` | core/src/diskann_io.rs:416-444 | reading a written varint gives the value back and stops exactly behind it, whatever follows |
| `AdjacencyList.VarintIsCanonical` | core/src/diskann_io.rs:424-444 | whatever bytes the varint reader accepts are the bytes the writer emits for that value |
| `AdjacencyList.VarintLenIsExact` | core/src/diskann_io.rs:372-375 | the length formula by bit length equals the number of bytes written |
| `AdjacencyList.AppendVarint` | core/src/diskann_io.rs:416-422 | the loop appends exactly the canonical septets |
| `AdjacencyList.VarintIsLeb128` | core/src/diskann_io.rs:416-422 | the bytes are the septets of the value, lowest first, with the high bit on all but the last |
| `AdjacencyList.ReadVarintAt` | core/src/diskann_io.rs:424-444 | the shift-and-OR loop agrees with the recursive reader, including every rejection |
| `AdjacencyList.CanonicalNeverLonger` | core/src/diskann_io.rs:346-357 | the chosen encoding never exceeds four bytes per neighbour |
| `AdjacencyList.CanonicalIsShortest` | core/src/diskann_io.rs:346-357 | no encoding of a list is shorter than the canonical one, and of two equally long ones it is the raw one |
| `AdjacencyList.DeltaVarintLen` | core/src/diskann_io.rs:359-370 | the planned length is the encoded length, and none exactly for lists that are not strictly increasing |
| `AdjacencyList.PlanList` | core/src/diskann_io.rs:346-357 | the canonical encoding with its size, which is minimal over both encodings; fails exactly on unsorted lists |
| `AdjacencyList.EncodeList` | core/src/diskann_io.rs:320-344 | emits the canonical bytes of the list |
| `AdjacencyList.DeltaOfNeighbor` | core/src/diskann_io.rs:320-344 | in the delta form every neighbour follows those before it as the varint of its distance from the last of them |
| `AdjacencyList.DecodeList` | core/src/diskann_io.rs:377-414 | the decoding loops compute the decoding function, including its errors |
| `AdjacencyList.DecodeWritten` | core/src/diskann_io.rs:320-414 | decoding what was encoded, followed by anything, gives the list and its length |
| `AdjacencyList.DecodesOnlyItsBytes` | core/src/diskann_io.rs:377-414 | bytes that decode to a list begin with that list's encoding |
| `AdjacencyLayout.NewLocator` | core/src/diskann_io.rs:168-190 | a locator stores degree and encoding flag, or fails when the degree needs 16 bits |
| `AdjacencyLayout.PlanLayout` | core/src/diskann_io.rs:2393-2432 | every list planned at the position greedy page filling gives it; fails only on unsorted lists, oversized records or page overflow |
| `AdjacencyLayout.StartIsLeast` | core/src/diskann_io.rs:2393-2432 | no place behind the records before it starts earlier and keeps a record in one page |
| `AdjacencyLayout.StartSpread` | core/src/diskann_io.rs:2393-2432 | later records start no earlier and at most one page per record further |
| `AdjacencyIndex.WriteIndex` | core/src/diskann_io.rs:2368-2391 | serializes the index, and fails exactly when a relative offset leaves 16 bits |
| `AdjacencyIndex.BaseAt` | core/src/diskann_io.rs:2368-2391 | the section begins with the block bases, eight bytes each |
| `AdjacencyIndex.RelativeAt` | core/src/diskann_io.rs:2368-2391 | the relative offsets follow, two bytes each |
| `AdjacencyIndex.DegreeWordAt` | core/src/diskann_io.rs:2368-2391 | the degree words come last, two bytes each |
| `AdjacencyIndex.ParseSerialized` | core/src/diskann_io.rs:2813-2878 | parsing a serialized index gives it back |
| `AdjacencyIndex.SerializeParsed` | core/src/diskann_io.rs:2813-2878 | serializing a parsed index gives back its bytes |
| `AdjacencyIndex.ValidateIndex` | core/src/diskann_io.rs:2880-2991 | the validator's loop decides the acceptance predicate |
| `AdjacencyIndex.AcceptedIndexIsSound` | core/src/diskann_io.rs:2880-2991 | in an accepted index every list is within its page and the degree bound, the first opens page 0, the last is in the last page, and each follows the one before it in its page or opens the next |
| `AdjacencyIndex.DecodeIndex` | core/src/diskann_io.rs:2813-2878 | accepts exactly the serializations of accepted indexes |
| `AdjacencyIndexRoundTrip.RelativesAlwaysFit` | core/src/diskann_io.rs:214-251 | relative offsets of any planned graph stay within 15 pages, so serialization never fails |
| `AdjacencyIndexRoundTrip.LocatorsReadBack` | core/src/diskann_io.rs:257-271 | what `locator` returns for a node, page folding included |
| `AdjacencyIndexRoundTrip.PlannedIndexAccepted` | core/src/diskann_io.rs:2880-2991 | the planned index is accepted if and only if the layout is readable |
| `AdjacencyIndexRoundTrip.UnreadableRejected` | core/src/diskann_io.rs:2880-2991 | a list at a page end that matters makes the validator refuse |
| `AdjacencyIndexRoundTrip.AtPageEndIsEmpty` | core/src/diskann_io.rs:2393-2432 | only an empty list can start at a page end |
| `AdjacencyIndexRoundTrip.NonEmptyIsReadable` | core/src/diskann_io.rs:2393-2432 | a graph whose lists that matter are not empty is always readable |
| `RefusedGraphs.InterleavedCounterexample` | core/src/diskann_io.rs:2393-2432 | plans a clean, fully reachable graph with interleaved F16 vectors whose second list starts at a page end, and the reader refuses the plan |
| `RefusedGraphs.CompactCounterexample` | core/src/diskann_io.rs:2393-2432 | plans a clean, fully reachable graph with separate vectors whose last list starts at a page end, and the reader refuses the plan |
| `AdjacencyPages.WritePages` | core/src/diskann_io.rs:2434-2477 | the page-buffer loop writes exactly the padded stream of records |
| `AdjacencyPages.WriteRecord` | core/src/diskann_io.rs:2434-2477 | one iteration extends the stream by one record, flushing and clearing pages as needed |
| `AdjacencyPages.WriteRecords` | core/src/diskann_io.rs:2434-2477 | at any locators that place records in order, the loop writes each record at its start and zeros elsewhere |
| `AdjacencyPages.FlushUpTo` | core/src/diskann_io.rs:2434-2477 | flushing to a page keeps what was written and leaves a zero page |
| `AdjacencyValidation.PartitionPoint` | core/src/diskann_io.rs:273-289 | binary search finds the boundary of a monotone page test |
| `AdjacencyValidation.CheckNeighbors` | core/src/diskann_io.rs:1779-1876 | decides sorted, in range and free of self edges |
| `RawVector.StoredVectorAccepted` | core/src/diskann_io.rs:1878-1895 | a stored vector passes if and only if all its components are finite |
| `AdjacencyValidation.ValidateRecord` | core/src/diskann_io.rs:1779-1876 | checks one record as the specification does, with the offset behind it |
| `AdjacencyValidation.ValidatePage` | core/src/diskann_io.rs:1779-1876 | succeeds if and only if the page is accepted |
| `AdjacencyValidation.AcceptedPageHolds` | core/src/diskann_io.rs:1779-1876 | an accepted page holds vectors and canonical lists back to back, then zeros |
| `AdjacencyValidation.HoldingPageAccepted` | core/src/diskann_io.rs:1779-1876 | a page that holds its nodes' records is accepted, with those lists |
| `AdjacencyValidation.AcceptanceIsExact` | core/src/diskann_io.rs:1779-1876 | a page is accepted if and only if it is the rendering, zero tail included, of some records that match its locators |
| `AdjacencyExact.SectionAcceptanceIsExact` | core/src/diskann_io.rs:1779-1876 | a section is what the writer emits for given vectors and lists at the locators of its index if and only if every page passes and these are the vectors and lists read from it |
| `AdjacencyExact.AcceptedGraphIsSound` | core/src/diskann_io.rs:1779-1876 | every list read from an accepted section is strictly increasing, in range, free of self edges and within the degree bound, and every interleaved vector is finite |
| `AdjacencyExact.Rewrite` | core/src/diskann_io.rs:2434-2477 | writing what was read from an accepted section gives the same bytes |
| `AdjacencyRoundTrip.WrittenPageAccepted` | core/src/diskann_io.rs:2434-2477 | every page of a written graph is accepted and decodes to its nodes' lists |
| `AdjacencyRoundTrip.WrittenListDecodes` | core/src/diskann_io.rs:257-271 | decoding at a node's stored locator returns exactly the list written |
| `BitPacking.PackedField` | core/src/diskann_io.rs:1193-1218 | field i of a packed number is value i |
| `BitPacking.PackedFieldsOf` | core/src/diskann_io.rs:1193-1218 | a number below the packed width is the packing of its fields |
| `PackedBytes.PackDelta` | core/src/diskann_io.rs:1173-1191 | OR-ing a field into the payload adds the field at its bit offset; fails exactly past the end |
| `PackedBytes.UnpackIsField` | core/src/diskann_io.rs:1193-1218 | byte-wise gathering and masking reads the field of the payload's number |
| `PackedBytes.OrIsAdd` | core/src/diskann_io.rs:1173-1191 | OR over bytes that end below the shift is addition |
| `RowIds.Encode` | core/src/diskann_io.rs:1004-1049 | minimum as base, narrowest width, Raw exactly for a 64-bit span; no truncation error for any u32 count |
| `RowIds.WidthIsNarrowest` | core/src/diskann_io.rs:1004-1049 | every ID fits the width above the base, some ID does not fit one bit less, and storage is raw exactly if some ID needs all 64 bits |
| `RowIds.EncodedGet` | core/src/diskann_io.rs:1066-1082 | random access returns every row ID and nothing past the end |
| `RowIds.ForEach` | core/src/diskann_io.rs:1084-1116 | the sequential visitor yields the IDs random access yields, or fails where it fails |
| `RowIdSection.DecodeSection` | core/src/diskann_io.rs:1328-1359 | the section reader computes the decoding function |
| `RowIdSection.ValidateStorage` | core/src/diskann_io.rs:1287-1308 | decides clear tail bits and readable IDs |
| `RowIdSection.SectionRoundTrip` | core/src/diskann_io.rs:2621-2635 | header and payload of encoded IDs decode to the same storage |
| `RowIdSection.SectionFields` | core/src/diskann_io.rs:2621-2635 | where the encoding, width, count and two's-complement base are stored, and that the payload follows 32 bytes of header |
| `RowIdSection.SectionIsExact` | core/src/diskann_io.rs:1228-1285 | an accepted section is the serialization of what was decoded |
| `RowIdSection.AcceptedIsPacking` | core/src/diskann_io.rs:1287-1308 | an accepted packed storage is the packing of the IDs it reads, tail bits zero |
| `RowIdOrder.ValidateOrder` | core/src/diskann_io.rs:2790-2811 | the validator's loop decides its acceptance predicate |
| `RowIdOrder.AcceptsExactlyTheOrder` | core/src/diskann_io.rs:2790-2811 | accepted if and only if a permutation of all nodes sorted by row ID and node |
| `RowIdOrder.OrderUnique` | core/src/diskann_io.rs:2325-2331 | there is at most one such order |
| `RowIdOrder.OrderExistsOnce` | core/src/diskann_io.rs:2325-2331 | every sequence of row IDs has exactly one such order: what sorting its nodes gives |
| `RowIdOrder.OrderMeans` | core/src/diskann_io.rs:2325-2331 | a sequence is that order if and only if it holds every node once, by row ID, and nodes with the same row ID ascending |
| `OffsetLrus.OffsetLru.Touch` | core/src/diskann_io.rs:508-538 | the linked chain becomes the recency sequence with the offset moved or added at the end |
| `OffsetLrus.OffsetLru.Detach` | core/src/diskann_io.rs:581-603 | unlinking keeps the chain of the others |
| `OffsetLrus.OffsetLru.Remove` | core/src/diskann_io.rs:540-545 | the sequence without the offset |
| `OffsetLrus.OffsetLru.PopOldest` | core/src/diskann_io.rs:547-551 | returns and removes the head of the sequence |
| `OffsetLrus.OffsetLru.Clear` | core/src/diskann_io.rs:553-558 | the empty chain |
| `OffsetLrus.OffsetLru.OldestOffsets` | core/src/diskann_io.rs:570-579 | walking the links lists the recency sequence |
| `WindowShards.EvictShortestPrefix` | core/src/diskann_io.rs:769-795 | eviction drops exactly the shortest oldest-first prefix that brings the shard within capacity |
| `WindowShards.PublishConsistent` | core/src/diskann_io.rs:769-795 | publishing keeps retained bytes equal to the sum of entry capacities and within capacity |
| `WindowShards.PublishKeeps` | core/src/diskann_io.rs:769-795 | the published offset becomes the most recent, the shortest oldest-first prefix that brings the total within capacity goes, the entries are exactly those of the rest; a window that fits the shard is stored |
| `WindowShards.LookupConsistent` | core/src/diskann_io.rs:746-767 | lookup or reserve keeps entries, recency and accounting consistent |
| `WindowShards.LookupMeans` | core/src/diskann_io.rs:746-767 | exactly a stored window of the length asked for is a hit, which becomes the most recent; otherwise a window of another length goes and the offset is reserved unless it is being loaded |
| `WindowShards.TakeMeans` | core/src/diskann_io.rs:810-833 | a waiter's hit makes the window the most recent; a miss changes nothing |
| `WindowShards.HitSurvivesPublish` | core/src/diskann_io.rs:746-795 | after a hit, publishing another window keeps both if they fit the shard together |
| `WindowCaches.WindowShard.LookupOrReserve` | core/src/diskann_io.rs:746-767 | the class on a linked LRU does what the shard function does, which `LookupMeans` characterises |
| `WindowCaches.WindowShard.EvictTo` | core/src/diskann_io.rs:769-795 | the eviction loop on the linked LRU evicts what the shard function evicts |
| `WindowCaches.WindowShard.Publish` | core/src/diskann_io.rs:769-795 | replace, reserve and evict in place, as the shard function, which `PublishKeeps` characterises |
| `WindowCaches.WindowShard.RemoveLoading` | core/src/diskann_io.rs:734-744 | drops reservations and nothing else |
| `WindowCaches.WindowShard.Take` | core/src/diskann_io.rs:810-833 | a waiter's hit refreshes recency and returns the stored window |
| `WindowCaches.SharesAddUp` | core/src/diskann_io.rs:696-715 | shard capacities sum to the total |
| `WindowCaches.SharesBalanced` | core/src/diskann_io.rs:696-715 | shares differ by at most one byte, the larger ones first |
| `WindowCaches.ShareHoldsWindow` | core/src/diskann_io.rs:642-665 | the shard count leaves every shard room for a window |
| `WindowProtocol.StepKeepsInv` | core/src/diskann_io.rs:734-833 | every step of every thread keeps the protocol invariant |
| `WindowProtocol.SingleFlight` | core/src/diskann_io.rs:746-808 | in every run an offset is loading exactly when one thread holds its reservation, and never both loading and stored |
| `WindowProtocol.SleepersAreServed` | core/src/diskann_io.rs:810-833 | a sleeping un-notified waiter's offset is held by a thread that is not asleep |
| `WindowProtocol.WindowsAgree` | core/src/diskann_io.rs:746-833 | every hit or wait returns the file slice of the requested offset and length |
| `WindowProtocol.LookupDelivers` | core/src/diskann_io.rs:746-767 | a stored window of the length asked for is given to the caller, and a miss nobody is loading is reserved for them |
| `WindowProtocol.WakeDelivers` | core/src/diskann_io.rs:810-833 | a waiter sleeps again only while the offset is loading, and is given a published window of the length asked for |
| `WindowProtocol.AccountingHolds` | core/src/diskann_io.rs:696-795 | retained bytes equal the sum of capacities; within the capacity once the latest resize of the shard has evicted |
| `WindowResizes.CapacitiesAddUp` | core/src/diskann_io.rs:684-715 | in every run whose resize calls do not overlap, capacities sum to the latest total whenever nobody is resizing |
| `WindowResizes.RunIsExecution` | core/src/diskann_io.rs:696-833 | every run of the protocol has steps, so what holds of executions holds of all runs |
| `WindowResizes.CapacitiesDuring` | core/src/diskann_io.rs:696-715 | during such a resize, the shards it has passed carry its total and the others the total before |
| `WindowResizes.OneStorerAddsUp` | core/src/diskann_io.rs:696-715 | in any run, when one call was the last to store every shard, capacities sum to what it asked for |
| `WindowResizes.OneTotalIffOneStorer` | core/src/diskann_io.rs:696-715 | for totals far enough apart, the shards carry one total if and only if the last call to store shard 0 was the last to store every shard |
| `WindowResizes.OverlappingResizesMix` | core/src/diskann_io.rs:638-715 | from any constructed cache with more than one shard, for any two totals, a run of two overlapping resizes leaves one share of one and all others of the other, summing to neither |
| `ValidationProtocol.StepKeepsInv` | core/src/diskann_io.rs:881-985 | every step keeps the protocol invariant, with lock, store and notify as separate steps |
| `ValidationProtocol.OneValidator` | core/src/diskann_io.rs:881-951 | a page is VALIDATING exactly while one thread owns its claim; claims equal abandons plus one unless unvalidated |
| `ValidationProtocol.FinalIsAbsorbing` | core/src/diskann_io.rs:881-951 | VALID and INVALID never change, nor does the recorded error |
| `ValidationProtocol.ReturnsAreJustified` | core/src/diskann_io.rs:881-951 | success only after a validation passed; otherwise the recorded error |
| `ValidationProtocol.FallbackUnreachable` | core/src/diskann_io.rs:938-946 | INVALID is visible only after its error is recorded |
| `ValidationProtocol.VerdictsAgree` | core/src/diskann_io.rs:881-951 | all calls for a page in a run return the same verdict |
| `ValidationProtocol.SleepersAreServed` | core/src/diskann_io.rs:925-985 | no lost wake-up: a sleeper's page is still validating or about to be notified, and some other thread can move |
| `HeaderLayout.LayOut` | core/src/diskann_io.rs:2038-2048 | seven consecutive sections of the given sizes, adjacency page-aligned, no u64 overflow |
| `HeaderLayout.AlignUp` | core/src/diskann_io.rs:3306-3312 | the least page multiple not below the value, or an error |
| `HeaderLayout.ForLayout` | core/src/diskann_io.rs:1955-2082 | a constructed header's sections are ordered, disjoint, aligned and sized as its parameters say |
| `HeaderLayout.AcceptedParameters` | core/src/diskann_io.rs:1955-2082 | the exact conditions, in plain numbers, under which a header is constructed |
| `HeaderLayout.LaidOutIffFits` | core/src/diskann_io.rs:2038-2082 | the sections are laid out if and only if the file length, with the adjacency aligned, fits 64 bits |
| `HeaderLayout.CodeSizeIsLeast` | core/src/diskann_io.rs:3257-3262 | a code takes the fewest bytes that hold its numbers |
| `HeaderCodec.ParseRendered` | core/src/diskann_io.rs:2084-2113 | reading rendered words gives them back, reserved bytes zero |
| `HeaderCodec.GraphFields` | core/src/diskann_io.rs:2084-2113 | the byte position of every graph field |
| `HeaderCodec.FormatFields` | core/src/diskann_io.rs:2084-2113 | the byte position of every format field and of the file length |
| `HeaderCodec.SectionFieldsAt` | core/src/diskann_io.rs:2084-2113 | the byte position of every section's offset and length, in file order |
| `HeaderCodec.RenderParsed` | core/src/diskann_io.rs:2115-2170 | rendering parsed words gives back the 256 bytes |
| `HeaderCodec.FlagsExact` | core/src/diskann_io.rs:2131-2138 | exactly two flag words are accepted |
| `HeaderCodec.DecodeEncoded` | core/src/diskann_io.rs:2084-2185 | every constructed header is decoded from its encoding |
| `HeaderCodec.EncodeDecoded` | core/src/diskann_io.rs:2084-2185 | re-encoding an accepted header gives the same bytes |
| `HeaderCodec.AcceptedIsConstructed` | core/src/diskann_io.rs:2187-2255 | an accepted header is the constructed one for the parameters it claims |
| `HeaderCodec.AcceptsExactlyConstructed` | core/src/diskann_io.rs:2115-2255 | accepted if and only if the bytes begin with a constructed header |
| `IndexFile.PadOut` | core/src/diskann_io.rs:2637-2650 | pads with zeros up to a target, or fails when it is passed |
| `IndexFile.AssembledHolds` | core/src/diskann_io.rs:2316-2350 | the assembled file holds every section at its place, with zero gaps, and has the stated length |
| `IndexFile.Write` | core/src/diskann_io.rs:2283-2361 | the writer's file holds all sections; it fails only where planning, row-ID packing or the layout fails, never on its final position |
| `PqCodebook.CodebookIsExact` | core/src/diskann_io.rs:2571-3061 | the reader accepts exactly the encodings of codebooks with covering chunks and finite centroids |
| `PqCodebook.WriteCodebook` | core/src/diskann_io.rs:2571-2619 | writes the encoding, and refuses exactly an invalid layout |
| `PqCodebook.CodebookWords` | core/src/diskann_io.rs:2571-2619 | word by word, the eight words of metadata, the chunk offsets and the centroids |
| `PqCodebook.DecodeCodebook` | core/src/diskann_io.rs:2998-3061 | the codebook reader computes the decoding function, including every rejection |
| `PqCodebook.AcceptedMeans` | core/src/diskann_io.rs:2998-3061 | the chunk offsets of an accepted codebook rise strictly from 0 to the dimension, and every centroid is finite |
| `PqCodebook.ValidatePadding` | core/src/diskann_io.rs:3283-3297 | decides that odd 4-bit codes leave their unused nibble clear |
| `IndexReader.Open` | core/src/diskann_io.rs:3131-3188 | reads header, codebook, row IDs and index from the bytes alone and checks the padding of the codes, as the specification of opening does, including its rejections |
| `IndexReader.HeaderReadsBack` | core/src/diskann_io.rs:2115-2185 | the header is read back from the file, and claims the writer's parameters |
| `IndexReader.RowIdsReadBack` | core/src/diskann_io.rs:3064-3129 | every row ID and the sorted order are read back, and the order is accepted |
| `IndexReader.IndexReadsBack` | core/src/diskann_io.rs:2813-2991 | the index section decodes to the planned index if the plan is readable, and is refused otherwise |
| `IndexReader.OpensIffReadable` | core/src/diskann_io.rs:3131-3188 | a written file opens if and only if the plan is readable, the codebook decodes and the codes are padded, with the sections that were written |
| `IndexReader.NonEmptyOpens` | core/src/diskann_io.rs:3131-3188 | a written file with such a codebook and codes, without an empty list in the wrong place, opens |
| `IndexReader.FileReadsBack` | core/src/diskann_io.rs:1779-1876 | from the file alone, the codebook and every node's row ID, list, code and vector are those given to the writer, and every page passes |
| `IndexReader.TruncatedRefused` | core/src/diskann_io.rs:3131-3188 | no proper prefix of a written file opens |
| `TopK.BestIsTopK` | core/src/index.rs:2455-2460 | k entries, or all if fewer, by distance and then ID; with the rest they are the given hits, and none of the rest comes before them |
| `TopK.BestOfBest` | core/src/index.rs:2455-2460 | keeping the best k before adding hits loses nothing |
| `TopK.RealCounts` | core/src/index.rs:2578-2585 | what is not padding are the hits at another distance than `f32::MAX`, each as often as it occurs |
| `ProgressiveSearch.IsComplete` | core/src/index.rs:2578-2585 | true exactly when enough entries are not padding |
| `ProgressiveSearch.SeededRoundIsWhole` | core/src/index.rs:2537-2558 | the best of seed and new probe range is the best of all probed lists |
| `ProgressiveSearch.WidthIsFirstPower` | core/src/index.rs:2428-2453 | the final width from n is the first of n, 2n, 4n, ... that holds enough hits or covers all lists, cut to the number of lists; every earlier one is below that number and holds too few |
| `ProgressiveSearch.SingleSearch` | core/src/index.rs:2428-2453 | the result at the first complete width of the doubling sequence, or over all lists; `WidthIsFirstPower` gives that width in closed form |
| `BatchSearch.SearchChunk` | core/src/index.rs:2536-2572 | gathers, searches and scatters one chunk; other queries keep their results |
| `BatchSearch.SearchRound` | core/src/index.rs:2523-2574 | one round extends exactly the active queries and lists those still incomplete |
| `BatchSearch.ChunkFillsBuffer` | core/src/index.rs:2523-2536 | a chunk takes as many queries as the buffer limit holds at four bytes a component and twelve a result, and one at least |
| `BatchSearch.Search` | core/src/index.rs:2485-2576 | every query gets its single-query result, at the width of `WidthIsFirstPower`, for any start width and buffer limit; errors are the callback's |
| `L2Kernels.UnitsSound` | core/src/distance.rs:343-352 | the AVX2 and NEON reductions are monotone and their steps never lower a lane |
| `L2Kernels.LanesGrow` | core/src/distance.rs:386-403 | lane accumulators and their reduction only grow |
| `L2Kernels.ReductionsAddLanes` | core/src/distance.rs:343-352 | with exact addition both reductions give the sum of the eight lanes |
| `L2Kernels.DistanceIsSum` | core/src/distance.rs:343-403 | with exact addition the scalar, AVX2 and NEON distances are the sum of all terms, for vectors of any length |
| `L2Kernels.ScalarUnlessExceeds` | core/src/distance.rs:274-299 | the scalar kernel with probes: the plain value, or none exactly if it exceeds the limit |
| `L2Kernels.LaneUnlessExceeds` | core/src/distance.rs:386-420 | the same for the lane-structured kernels |
| `L2Kernels.LaneSum` | core/src/distance.rs:356-379 | the plain vector kernel computes the lane distance |
| `L2Kernels.UnlessExceeds` | core/src/distance.rs:137-158 | exact for every threshold, negative and non-finite ones included |
| `RangeCollectors.RangeCollector.Push` | core/src/collect.rs:159-171 | counts the row, admits it by the band, refuses non-finite distances |
| `RangeCollectors.RangeCollector.NoteAbandoned` | core/src/collect.rs:148-151 | counts a rejected row as scanned and abandoned |
| `RangeCollectors.RangeCollector.Merge` | core/src/collect.rs:137-141 | rows appended, both counters added |
| `RangeCollectors.RangeCollector.Scan` | core/src/ivfflat_io.rs:1329-1370 | rows and scanned count are those of full distances whatever the cutoff; fails exactly on an overflow at or below the cutoff |
| `RangeCollectors.AdmittedMeans` | core/src/collect.rs:159-171 | a row is admitted, as often as visited, if and only if it is finite and in the half-open band |
| `RangeCollectors.VisitedMeans` | core/src/ivfflat_io.rs:1329-1370 | a row is visited if and only if its entry passes the filter, at its distance from the query |
| `RangeCollectors.SplitScan` | core/src/collect.rs:137-141 | admission and abandonment of visited rows distribute over parts |
| `RangeParts.VisitedSplit` | core/src/ivfflat_io.rs:1329-1370 | a list visits the rows of its front and then those of its rest |
| `RangeParts.ScanInParts` | core/src/collect.rs:137-141 | parts scanned with collectors of their own and merged in any order: the rows of one scan of the whole list as a multiset, the same counters, and failure exactly if that scan fails |
| `RangeCollectors.MergeOrderIrrelevant` | core/src/collect.rs:137-141 | any merge order gives the same rows as a multiset and the same counters |
| `BlockLayout.Pack` | core/src/fastscan.rs:37-57 | every code byte is at its place, padding rows are zero |
| `BlockLayout.Unpack` | core/src/fastscan.rs:60-80 | reads every byte from its place |
| `BlockLayout.UnpackUndoesPack` | core/src/fastscan.rs:37-80 | unpacking a packed layout gives the codes back |
| `FastScan.Quantize` | core/src/fastscan.rs:83-96 | covers the table's range from its minimum |
| `FastScan.EntryBound` | core/src/fastscan.rs:83-96 | quantizing an entry rounds down by less than one unit |
| `FastScan.EstimateBound` | core/src/fastscan.rs:229-234 | estimate at most exact, short of it by less than m * range / 255 |
| `FastScan.ExactIsSum` | core/src/fastscan.rs:101-252 | the exact distance is the sum over all subquantizers of the table entry of the code, low nibble first |
| `FastScanKernels.Avx2Block` | core/src/fastscan.rs:272-331 | shuffle, unpack, wrapping add and permute give every row of the block its plain sum, in order |
| `FastScanLoops.ScalarBlock` | core/src/fastscan.rs:210-227 | the scalar block loop gives the same sums without overflow |
| `FastScanLoops.FastScan4Bit` | core/src/fastscan.rs:101-252 | all n rows written: the flat prefix and its last block exact, the rest quantized |
| `FastScanLoops.RowMajorScan` | core/src/distance.rs:1198-1255 | the row-major scan: the flat prefix exact, the rest quantized |
| `FastScanLoops.BothWithinBound` | core/src/fastscan.rs:101-252 | both scans are at most the exact distance and within m units of it |
| `FastScanLoops.ScansAgree` | core/src/fastscan.rs:101-252 | on packed and row-major forms of the same codes both values agree outside rows 200..223 of quantized scans |
| `FastScanLoops.QuantizedRows` | core/src/fastscan.rs:101-252 | which rows are exact and which quantized: rows up to 200, and all with more than 257 subquantizers, exact in both scans; rows from 224 on quantized in both; between them the block scan exact |
| `FastScanLoops.BothScans` | core/src/fastscan.rs:37-252 | the outputs of packing and scanning, with either instruction set, and of the row-major scan: both within the bound at every row, equal outside the gap, the block scan exact in it |
| `BfsLocality.Traverse` | core/src/diskann.rs:776-789 | the queue meets nodes in an order with nondecreasing first-parents, nodes of one parent in the order of its list, and ends closed |
| `BfsLocality.LevelOrder` | core/src/diskann.rs:776-789 | along that order BFS distance never decreases |
| `BfsLocality.BreadthFirstUnique` | core/src/diskann.rs:776-789 | a breadth-first order, with nodes of one parent in the order of its list, is determined by the graph and the entry |
| `BfsLocality.Invert` | core/src/diskann.rs:796-799 | the two ID maps are inverse bijections |
| `BfsLocality.Relabel` | core/src/diskann.rs:771-804 | inverse bijections, entry at 0, the reachable prefix in breadth-first order and by distance, the rest ascending |
| `BfsLocality.RelabellingUnique` | core/src/diskann.rs:771-804 | the whole relabelling is determined by the graph and the entry |
| `LocalityRemap.FollowCycle` | core/src/vamana.rs:1532-1553 | following a cycle with one buffer moves each of its rows to its new place |
| `LocalityRemap.PermuteRows` | core/src/vamana.rs:1528-1553 | every row ends at its node's new ID; the permutation check never fires |
| `LocalityRemap.Remap` | core/src/vamana.rs:1528-1561 | rows moved, neighbours renamed and sorted |
| `LocalityRemap.EdgesKept` | core/src/vamana.rs:1528-1561 | exactly the old edges under new names |
| `LocalityRemap.RelabelledAccepted` | core/src/vamana.rs:1554-1561 | distinct, in-range, self-edge-free lists become strictly increasing lists of the same length that pass the page validator under the new IDs |
| `PreparedIndex.AccessorsAligned` | core/src/diskann.rs:820-835 | at a node's new ID the accessors read its row ID, and component by component its vector and code out of the flat buffers |
| `PreparedIndex.PreparedAccepted` | core/src/diskann.rs:806-835 | the relabelled graph is what the planner and the validators ask for |
| `PreparedIndex.IndexComesBack` | core/src/diskann_io.rs:2283-2361 | from a written file that opens come the codebook, every node's own row ID, code and vector, and exactly its neighbours under their new IDs |
| `PreparedIndex.Build` | core/src/diskann_io.rs:2283-2361 | relabel, remap and write: fails exactly if the format parameters or the derived layout are refused; the entry becomes node 0; the index comes back from the file, which opens with finite centroids, padded codes and no empty list |
| `MemoryBudget.SteadyWithinPeak` | core/src/diskann_io.rs:2652-2727 | for constructed headers the warm-up check covers the steady size |
| `ResidentMemory.SteadyCountsResident` | core/src/diskann_io.rs:2708-2727 | for every file that opens, the steady size is the codebook, row IDs, codes and index it keeps, the norms and one byte per adjacency page |
| `ResidentMemory.PeakCoversStages` | core/src/diskann_io.rs:2652-2706 | the warm-up check covers every stage of opening: the bytes still held with the parts decoded so far |
| `MemoryBudget.ShareBounds` | core/src/diskann_io.rs:1494-1513 | both caches together get the total, neither more than it wants |
| `MemoryBudget.ShareIsProportional` | core/src/diskann_io.rs:1494-1513 | the adjacency cache gets its proportional part of the total, rounded down |
| `MemoryBudget.StepKeepsBudget` | core/src/diskann_io.rs:1424-1630 | no operation, failed reads included, leaves the budget |
| `MemoryBudget.BudgetHoldsFromThenOn` | core/src/diskann_io.rs:1494-1630 | once a preload has resized or an order load succeeded, the budget holds after any later operations |
| `MemoryBudget.WarmUpBudget` | core/src/diskann_io.rs:1424-1451 | right after warm-up the budget is met if and only if the wanted caches fit |
| `MemoryBudget.Reader.ResizeCaches` | core/src/diskann_io.rs:1494-1513 | the caches as the resize function gives them |
| `MemoryBudget.Reader.EnsureRowIdOrder` | core/src/diskann_io.rs:1529-1572 | reserve, read, then resize; unavailable when over budget |
| `MemoryBudget.OrderLoadFits` | core/src/diskann_io.rs:1529-1572 | while the order is read, it, its decoding buffer and the caches fit the budget together |
| `MemoryBudget.Reader.OptimizeForSearch` | core/src/diskann_io.rs:1574-1630 | the aligned preload length and the resize before its read |
| `MemoryBudget.PreloadLengthMeans` | core/src/diskann_io.rs:1574-1630 | the preload is the whole adjacency if asked for and available, else the largest multiple of 64 KiB within what is available and asked for |
| `MemoryClones.BudgetSurvivesClones` | core/src/diskann_io.rs:1715-1756 | however the reader operates, clones, refreshes and drops, also when it preloads while clones without its buffer exist, the group stays within budget |
| `MemoryClones.GroupBudgetFromThenOn` | core/src/diskann_io.rs:1494-1756 | in any such sequence the group is within budget from the first preload that resizes or order load that succeeds |
| `MemoryClones.BatchReader.TakeBatchWorkers` | core/src/diskann_search.rs:940-979 | preload, truncate, clone and refresh keep the budget on success and on every failure; on success no worker trails the reader |
| `MemoryClones.BatchReader.Operate` | core/src/diskann_io.rs:1529-1630 | an operation of the reader keeps or establishes the budget of the group, workers or not |
| `MemoryClones.BatchReader.KeepWorkers` | core/src/diskann_search.rs:950-951 | dropping workers changes nothing the group holds |
| `MemoryClones.GroupEstablishes` | core/src/diskann_io.rs:1494-1630 | what brings the reader, or a clone with its buffer, within budget brings the whole group within it |
| `MemoryClones.BudgetWithClones` | core/src/diskann_io.rs:1494-1630 | for any reader of any group: after its preload or order load, the group is within budget if and only if it counted every preload or there was room for the others beside all the caches want |
| `MemoryClones.ClonePreloadsItself` | core/src/diskann_io.rs:1574-1630 | for every constructed header with 64 KiB of adjacency, limits under which a clone that preloads by itself takes the group over budget; no caller does this |
| `Reservoir.OriginsDistinct` | core/src/index.rs:1383-1394 | the sample holds distinct vectors of the stream |
| `Reservoir.SlotHoldsLast` | core/src/index.rs:1383-1394 | slot r holds the last vector that went to it: its first one, or the last one past the limit drawn into it |
| `Reservoir.Trainer.AddBatch` | core/src/index.rs:1374-1398 | the retained rows are the reservoir sample of the whole stream so far |
| `Reservoir.TrainInBatches` | core/src/index.rs:1374-1398 | for any split into batches the sample is that of the joined stream, with min(seen, limit) rows |
| `Reservoir.SampleOnce` | core/src/diskann.rs:622-648 | the one-shot sampler gives the sample of the stream, exactly when it is longer than the limit |
| `Reservoir.SampleIsUnique` | core/src/diskann.rs:622-648 | one stream and one draw sequence have one sample, so both samplers agree |
| `NativeHandles.StepKeepsInv` | include/paimon_vindex.hpp:71-152 | every step of threads, callbacks and moves keeps the protocol invariant |
| `NativeHandles.MutualExclusion` | include/paimon_vindex.hpp:105-140 | at most one thread is inside an operation on a handle, once |
| `NativeHandles.OwnerHoldsMutex` | include/paimon_vindex.hpp:105-140 | a recorded owner holds the operation mutex |
| `NativeHandles.NeverBlocksOnItself` | include/paimon_vindex.hpp:105-117 | a thread about to block neither holds the handle nor stands in a callback of its current context, moves included |
| `NativeHandles.CallbacksStayInContext` | include/paimon_vindex.hpp:590-615 | a callback's context stays the context of a handle in use |
| `NativeHandles.ReentryThrows` | include/paimon_vindex.hpp:105-130 | a call throws, and changes nothing, if and only if the thread is the recorded owner or stands in a callback of the handle's context |
| `NativeHandles.OperationUndone` | include/paimon_vindex.hpp:105-140 | an operation on a free handle that ends leaves no trace |
| `NativeHandles.CallbackUndone` | include/paimon_vindex.hpp:71-103 | a callback that has returned leaves no trace |
| `NativeHandles.MoveTransfers` | include/paimon_vindex.hpp:590-615 | a move gives the target the source's context and the source none |

## Left out

- Actual I/O, latency probing and read tiers: a read is a slice of a byte sequence or a flag that says whether it succeeded.
- PQ codes and vector contents: opaque bytes of the right length, with their padding and finiteness checked as bit patterns.
- Graph construction, k-means, PQ and OPQ training, the matrix kernels and graph search.
- NEON block scan of FastScan, and the inner-product and cosine kernels; the L2 NEON accumulation is modelled.
- AdjacencyList.DecodeList: allocation failure while collecting neighbours is not modelled.
- IndexFile.Write: takes encoded vectors as given; the library sort of the row-ID order is insertion by key.
- PreparedIndex.Build: the raw-vector encoding is a parameter.
- BatchSearch.Search: the parallel arrays of IDs and distances are one sequence of pairs; results are compared on entries that are not padding.
- L2Kernels.UnlessExceeds: operands are finite, an unchecked precondition of `fvec_l2sqr_unless_exceeds`; NaN can only appear as a threshold.
- RangeCollectors.RangeCollector.Scan: only L2 lists, since other metrics have no cutoff.
- FastScanLoops.FastScan4Bit: over the reals, so float rounding is not part of the bound; m is even and positive.
- LocalityRemap.Remap: rows are sequences instead of fixed-width slots with degrees.
- Reservoir.Trainer.AddBatch: vectors are elements instead of slices of one flat buffer; the length and finiteness checks of a batch are not modelled.
- MemoryClones.BudgetSurvivesClones: operations of the readers of a group are taken one at a time, and clones are made of a warmed-up reader, as `take_batch_workers` does.
- WindowResizes.OneTotalIffOneStorer: shares of totals closer together than the shard count can coincide, so there only one direction holds.
- NativeHandles.NeverBlocksOnItself: move construction is covered as assignment to a handle no other thread can reach; waiting across two different handles is not excluded.
- Mutex poisoning, allocation failure and memory orderings weaker than sequential consistency.
- Option parsing, configuration dispatch, autotuning, statistics, C and Python bindings.
