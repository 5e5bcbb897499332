# MPAS: a Dafny model of its I/O exchange, XML and mesh interface

This project models the parts of MPAS whose correctness depends on several processes or several
functions agreeing, and proves that they do.

* **SMIOL exchange** (`Triplets`, `Marking`, `Ring`, `RingProtocol`, `Lists`, `Agreement`, `BuildExchange`,
  `Transfer`, `TransferBytes`, `TransferSequence`): the ring in which ranks find out who computes which
  element, as a state machine over all ranks with FIFO channels; the lists every rank packs by itself; and the
  transfer of fields along them, byte by byte and call after call.
* **SMIOL decompositions** (`Partition`, `Aggregate`, `Decomposition`, `EndToEnd`): I/O ranges, gathering
  within groups, and the whole way of a field to the file and back.
* **SMIOL chunked and buffered I/O** (`Chunks`, `Buffered`, `FileRuns`): the lockstep loops of at most INT_MAX
  bytes a call, the pending requests of buffered writes, and what a file holds over whole runs.
* **ezxml** (`ChildIndex`, `EzxmlTree`, `Utf`, `Escapes`, `Printer`, `Parser`, `RoundTrip`,
  `Grammar`): the three linked lists over a tag's children, on the heap and as values; encoders and decoders;
  a printer and parser that undo each other; and the documents the parser accepts.
* **Land-ice interface** (`HaloExchange`, `ExchangeSequence`, `Numbering`, `ReverseLists`, `ReverseAgreement`,
  `CellColumns`, `VerticesToCells`, `Unsynchronized`, `Prism`): exchange lists built on each process
  separately, exchanges one after the other without a barrier, the two that bring all copies of a cell to one
  value, and the split of prisms into tetrahedra.

`Basics` holds what several modules share.

Code that changes arrays or linked objects step by step is modelled by methods on arrays and classes, each
proved against a function or predicate; statements over all inputs, ranks, runs and interleavings are lemmas
about those.

Main results: `RingProtocol.RunsEnd`, `Agreement.AgreementExactly`, `EndToEnd.PutIsTheField`,
`EndToEnd.PutThenGet`, `TransferSequence.EveryRunOfCalls`, `Chunks.RoundsAre`, `Chunks.PutVarByCalls`,
`Buffered.RunInStep`, `Buffered.RunIsAccounted`, `FileRuns.GetReturnsLatest`, `EzxmlTree.Tag.Insert` with
`ChildIndex.DocumentOrder`, `Utf.Utf16BecomesUtf8`, `Escapes.AttributeRoundTrip`,
`Escapes.SignedRefDecodes`, `RoundTrip.ParserUndoesPrinter`, `Grammar.ParsedExactly`,
`ReverseAgreement.ReverseListsAgree`, `ExchangeSequence.EveryRunOfPlan`,
`VerticesToCells.AllCopiesAgree`, `Unsynchronized.CopiesAreGivenUnsynchronized`, `Prism.SharedFacesAgree`
and `Prism.VolumeKept`. That their hypotheses can be met is shown by `Decomposition.DecompExists` and,
for the mesh, `VerticesToCells.PairIsAnExample`.

Where the code does not keep what its text or design promises, the condition is proved in both directions, and
the failure shown at one input:

* the lists of all ranks agree: `Agreement.AgreementExactly`, and not at `Decomposition.DoubleClaimDisagrees`;
* every element has an I/O rank: `Partition.PartsCoverExactly`, and not in a layout of
  `Partition.LastElementLost`;
* the chunk loop moves everything or reports an error: `Chunks.AllMovedExactly` with `Chunks.SilentExactly`, and
  not at `Chunks.OversizedIsLost` and `Chunks.OtherFailureIsSilent`;
* the byte counts given to MPI are those of the buffers: `TransferBytes.MpiCountExactly`, and not at
  `TransferBytes.TwoTooLarge`;
* pending puts to one variable take effect in turn, whatever order the library completes them in:
  `FileRuns.AnyOrderExactly`, and not at `FileRuns.OlderPutSurvives`;
* all tasks have the same n_reqs: `Buffered.PutInStepExactly`, and not at `Buffered.OneFailureBreaksStep`;
* a buffered put has a buffer, as the comment at src/external/SMIOL/smiol.c:2685-2688 assumes:
  `Buffered.BufferedMeansAttached` and `Buffered.StrayExactly`, and not at `Buffered.PutWithoutBuffer`;
* the sibling list has one entry per name: `ChildIndex.InsertKeepsExactly`, and not at `ChildIndex.TwoEntries`;
* decoding stays within the text: `Escapes.NormalizeLineEnds`, and not at `Escapes.FinalCrOverruns`;
* attributes survive encoding: `Escapes.AttributeRoundTrip`, and not at `Escapes.VerticalTabIsLost`;
* faces are cut by global ID: `Prism.CutFromSmaller`; and neighbouring prisms cut the face between them alike:
  `Prism.SharedFacesAgree`; both fail at `Prism.WideIdsDisagree`.

The model follows the code in each of these.

Outside knowledge: MPI point-to-point messages between two ranks with the same tag are not overtaken (section
3.5 of MPI 3.1); reductions, gathers and scatters are functions of all ranks' arguments; answers of
Parallel-NetCDF are parameters; `qsort` leaves any sorted permutation and `bsearch` is a bisection.

## Model

| member | source | states |
|---|---|---|
| `Triplets.SortTripletArray` | src/external/SMIOL/smiol_utils.c:33-48 | sorts the triplets in place on the chosen entry, keeping the multiset; how equal triplets are ordered is left open, except that ties on the second and third entry are broken by the global ID |
| `Triplets.SearchTripletArray` | src/external/SMIOL/smiol_utils.c:71-99 | finds a triplet with the key exactly when there is one, in an array sorted on that entry |
| `Marking.FillComputeIds` | src/external/SMIOL/smiol_utils.c:635-645 | the triplets of the compute elements: IDs, positions, unknown I/O rank, before sorting |
| `Marking.FillBuffer` | src/external/SMIOL/smiol_utils.c:652-666 | the outgoing buffer: the I/O element IDs in order, all unmarked |
| `Marking.FillIoIds` | src/external/SMIOL/smiol_utils.c:805-809 | the triplets of the returned buffer: IDs, positions in order, and the marks |
| `Marking.MarkIncoming` | src/external/SMIOL/smiol_utils.c:739-766 | one pass over an incoming buffer: exactly the unmarked elements computed here get this rank, and exactly the triplets found for them note the source rank; nothing else changes |
| `Marking.BisectSameIds` | src/external/SMIOL/smiol_utils.c:749-763 | marking does not disturb later searches, because a search reads only the ID entry |
| `Ring.RingFormulas` | src/external/SMIOL/smiol_utils.c:679-692 | the neighbour and source formulas of the loop are the ranks to the left and right and the one i+1 places back; no operand of % is negative |
| `Ring.ClaimantIsFirst` | src/external/SMIOL/smiol_utils.c:739-766 | the mark on an element after n steps is the first rank in order s+1, ..., s+n that computes its ID, or unknown if none does |
| `Ring.BufferMeaning` | src/external/SMIOL/smiol_utils.c:675-780 | after i iterations a rank holds the IDs of the rank i places before it, in their original order, each marked with the first rank on the way that computes it |
| `Ring.FinalBuffer` | src/external/SMIOL/smiol_utils.c:782-785 | after the last iteration every rank holds its own elements again, in order, each marked with the first computing rank in order s+1, ..., s, or unknown |
| `Ring.OwnerClaims` | src/external/SMIOL/smiol_utils.c:743-765 | the recorded owner claims an element in exactly the iteration in which it passes by |
| `Ring.AnswersMeansLinked` | src/external/SMIOL/smiol_utils.c:749-763 | in iteration i a triplet is given the source rank exactly if it answers for an element of that rank which this rank owns |
| `Ring.NotedMeaning` | src/external/SMIOL/smiol_utils.c:675-780 | after i iterations a triplet carries the last rank among those passed that has an element linked to it, and nothing else of it has changed |
| `Ring.FinalTriplets` | src/external/SMIOL/smiol_utils.c:675-780 | when no two I/O elements have the same ID and the same computing rank, a triplet finally names s exactly if an element of s is linked to it |
| `Ring.SameClaimant` | src/external/SMIOL/smiol_utils.c:739-766 | an ID that some rank computes and that two ranks list is claimed by one rank for both exactly if, on the way from one of the two to the other around the ring, no rank computes it |
| `Ring.NoDoubleClaimExactly` | src/external/SMIOL/smiol_utils.c:618-780 | the ring leaves no two elements with the same ID and the same computing rank if and only if the arguments of all ranks are separated: no computed ID is twice on one rank's I/O list, and between two ranks that list it, either way around the ring, a rank computes it |
| `RingProtocol.StepKeepsInv` | src/external/SMIOL/smiol_utils.c:675-780 | every step of every rank, with rendezvous or buffered sends, keeps the invariant that ties channels, buffers and triplets to the iteration each rank is in |
| `RingProtocol.ReceivesAreRight` | src/external/SMIOL/smiol_utils.c:686-733 | in every reachable state a completed receive of iteration i holds what the left neighbour sent in its iteration i: first the size, then a buffer of that size |
| `RingProtocol.MatchesOldest` | src/external/SMIOL/smiol_utils.c:686-713 | a pending receive is always answered by the oldest message in its channel, so the tag never skips one |
| `RingProtocol.NeverStuck` | src/external/SMIOL/smiol_utils.c:686-771 | no reachable unfinished state is stuck, even if from there on a send completes only once it is matched |
| `RingProtocol.LeastAdvancedCanStep` | src/external/SMIOL/smiol_utils.c:686-771 | the rank that has advanced least can always step |
| `RingProtocol.RunsEnd` | src/external/SMIOL/smiol_utils.c:675-780 | with rendezvous or buffered sends every run is at most 7 * comm_size^2 steps long; one that cannot go on is finished, after exactly that many |
| `RingProtocol.FinishedResult` | src/external/SMIOL/smiol_utils.c:675-816 | every finished run leaves the same marked buffer and triplets on each rank, whatever the interleaving |
| `RingProtocol.CountsFit` | src/external/SMIOL/smiol_utils.c:597-615 | when no rank fails the limit check, the byte count of every message and receive of every run fits an int |
| `BuildExchange.CheckCounts` | src/external/SMIOL/smiol_utils.c:597-607 | a rank's contribution to the all-rank limit check is 1 exactly when one of its element counts exceeds the limit |
| `BuildExchange.StartExchange` | src/external/SMIOL/smiol_utils.c:618-666 | what a rank prepares before the ring: searchable triplets, a permutation of the filled-in ones, and the unmarked buffer |
| `BuildExchange.FinishExchange` | src/external/SMIOL/smiol_utils.c:793-1016 | what a rank makes of its returned buffer and triplets: both packed lists, of some order the sorts may leave |
| `Lists.CountRun` | src/external/SMIOL/smiol_utils.c:861-865 | the inner loop of a scan stops at the end of the run of the same rank |
| `Lists.CountNeighbors` | src/external/SMIOL/smiol_utils.c:847-870 | the first scan counts the neighbours and the elements of the segments the second scan writes |
| `Lists.PackList` | src/external/SMIOL/smiol_utils.c:847-922 | both scans: the list is exactly the packing of the runs with a known rank; every write is within the 1 + 2*n_neighbors + n_xfer_total allocated entries, which are used up |
| `Lists.UnpackPacked` | src/external/SMIOL/smiol_utils.c:889-922 | walking a packed list by its own counts gives back exactly the segments it was packed from and ends at its end |
| `Lists.SegmentsVisitKnown` | src/external/SMIOL/smiol_utils.c:896-922 | walking a list visits each triplet with a known rank exactly once, in array order, and no other |
| `Agreement.SegmentsIncrease` | src/external/SMIOL/smiol_utils.c:896-922 | neighbour ranks of a list of sorted triplets strictly increase, are never the unknown mark, and none has an empty segment |
| `Agreement.SegmentsOfSorted` | src/external/SMIOL/smiol_utils.c:896-922 | a list has a segment for a rank exactly if a triplet names it, holding the local IDs of those triplets in sorted order |
| `Agreement.SortedIsPlaced` | src/external/SMIOL/smiol_utils.c:641-645 | sorting only permutes the triplets of the given IDs |
| `Agreement.ListsAgree` | src/external/SMIOL/smiol_utils.c:841-1012 | for every computing rank c and I/O rank s, and any order the unstable sorts leave: c's segment for s and s's segment for c exist together, have equal length, and their k-th entries name the same global ID |
| `Agreement.AgreementExactly` | src/external/SMIOL/smiol_utils.c:841-1012 | the lists of all ranks agree if and only if the arguments of all ranks are separated in that sense, whatever orders the sorts leave |
| `Agreement.UniqueIdsAgree` | src/external/SMIOL/smiol_utils.c:841-1012 | in particular they agree when the I/O IDs are unique across ranks |
| `Decomposition.DoubleClaimDisagrees` | src/external/SMIOL/smiol_utils.c:841-1012 | two ranks that both list element 7, which rank 0 alone computes, end up with lists that do not agree |
| `BuildExchange.FinishedListsAgree` | src/external/SMIOL/smiol_utils.c:782-1016 | the lists that finished runs of all ranks produce agree if and only if the ranks' arguments are separated |
| `TransferBytes.CopyElement` | src/external/SMIOL/smiol_utils.c:276-278 | the byte loop makes one element of the target equal to one of the source and leaves every other byte alone |
| `TransferBytes.PackBuffer` | src/external/SMIOL/smiol_utils.c:234-244 | a send buffer holds the listed elements, byte for byte, in list order |
| `TransferBytes.UnpackBuffer` | src/external/SMIOL/smiol_utils.c:298-308 | a received buffer ends up in the listed elements; every other byte is left alone |
| `TransferBytes.CopyLocal` | src/external/SMIOL/smiol_utils.c:264-283 | elements a rank sends to itself are copied straight to the listed places |
| `TransferBytes.PostReceives` | src/external/SMIOL/smiol_utils.c:207-230 | the walk over the receive list keeps step with its segments and finds the rank's own entry |
| `TransferBytes.PostSends` | src/external/SMIOL/smiol_utils.c:232-262 | the walk over the send list packs what is listed for every neighbour, and finds the own entry |
| `TransferBytes.UnpackReceives` | src/external/SMIOL/smiol_utils.c:288-320 | the last walk unpacks every buffer to the elements its segment lists |
| `TransferBytes.TransferField` | src/external/SMIOL/smiol_utils.c:124-336 | the whole call on bytes equals, element by element, the own copy followed by unpacking in list order; MPI is told the int products of the element counts and the element size |
| `TransferBytes.MpiCountExactly` | src/external/SMIOL/smiol_utils.c:217-262 | such a product is the number of bytes of the buffer if and only if that is at most INT_MAX |
| `TransferBytes.TwoTooLarge` | src/external/SMIOL/smiol_utils.c:217-262 | for two elements of 2^30 bytes it is -2^31 |
| `TransferBytes.AllRanksTransfer` | src/external/SMIOL/smiol_utils.c:207-336 | when every rank makes the call and MPI delivers to each what its neighbours sent to it, the bytes each rank ends up with hold the transferred field |
| `Transfer.Delivered` | src/external/SMIOL/smiol_utils.c:207-336 | run on all ranks with matching lists, the k-th element r expects from t becomes t's k-th element for r, the copy within a rank included |
| `Transfer.Untouched` | src/external/SMIOL/smiol_utils.c:207-336 | an element that no neighbour is to deliver keeps its value |
| `Transfer.ThereAndBack` | src/external/SMIOL/smiol_utils.c:207-336 | compute to I/O and back restores every transferred element |
| `TransferSequence.ExchangedIsTransferred` | src/external/SMIOL/smiol_utils.c:207-336 | as an exchange between ranks, a call leaves what it transfers in the target fields and the sources as they were |
| `TransferSequence.EveryRunOfCalls` | src/external/SMIOL/smiol_utils.c:124-336 | calls made one after the other without a barrier: no run is stuck before all ranks have made all calls or is without end, and then every call has left what it transfers |
| `TransferSequence.BuiltIsCall` | src/external/SMIOL/smiol.c:2251-2282 | the lists of every decomposition that the ranks build can be used so in both directions |
| `Partition.GetIoElements` | src/external/SMIOL/smiol_utils.c:496-525 | the method computes the start and count of the rank's part, with 0 and 0 for ranks that do no I/O |
| `Partition.PartsInOrder` | src/external/SMIOL/smiol_utils.c:496-525 | parts of different ranks are disjoint and in rank order |
| `Partition.HeldOnce` | src/external/SMIOL/smiol_utils.c:496-525 | no element is in the parts of two ranks |
| `Partition.PartsCoverExactly` | src/external/SMIOL/smiol_utils.c:496-525 | the parts cover 0..n-1 if and only if n is 0 or (num_io_tasks - 1) * io_stride is less than the number of ranks |
| `Partition.LastElementLost` | src/external/SMIOL/smiol_utils.c:496-525 | otherwise the last element has no I/O rank |
| `Partition.JoinGroup` | src/external/SMIOL/smiol.c:277-288 | the I/O flag and the group a rank gets when a file is opened |
| `Partition.OneIoTaskPerGroup` | src/external/SMIOL/smiol.c:277-288 | every group has exactly one I/O rank, its lowest, and only I/O ranks have elements |
| `Partition.NearestIoTask` | src/external/SMIOL/smiol.c:277-288 | the I/O rank of a group is the nearest one not above each of its ranks, so groups are runs of ranks and those behind the last stride belong to the last group |
| `Partition.IoTasksAre` | src/external/SMIOL/smiol.c:277-288 | the I/O ranks are the multiples of io_stride below num_io_tasks * io_stride |
| `Partition.SharesAre` | src/external/SMIOL/smiol_utils.c:496-525 | each I/O rank has the same whole share of the elements, one after the other, and the last one the rest too |
| `Aggregate.ScanCounts` | src/external/SMIOL/smiol_utils.c:450-464 | the displacements are the prefix sums of the counts, and the total is their sum |
| `Aggregate.ConcatIsGathered` | src/external/SMIOL/smiol_utils.c:470-475 | with these displacements a gather of the parts is their concatenation |
| `Aggregate.GatheredIsConcat` | src/external/SMIOL/smiol_utils.c:470-475 | and whatever a gather leaves is that concatenation: the displacements leave no gap and no overlap |
| `Aggregate.PartOf` | src/external/SMIOL/smiol.c:1571-1576 | every element of a gathered buffer is one element of one part, so a scatter gives each rank its own |
| `Decomposition.FillIoElements` | src/external/SMIOL/smiol.c:2183-2196 | the I/O elements of a rank are its contiguous range of global IDs |
| `Decomposition.GroupsAreRuns` | src/external/SMIOL/smiol.c:2206-2217 | with a positive aggregation factor the group of a rank is the run of that many ranks around it that begins at a multiple of the factor |
| `Decomposition.IoIdsUnique` | src/external/SMIOL/smiol.c:2168-2196 | no global ID occurs twice among the I/O elements of all ranks |
| `Decomposition.DecompFits` | src/external/SMIOL/smiol.c:2251-2282 | the lists of all ranks that create_decomp builds match, fit the fields and list no element twice, in both directions |
| `Decomposition.DecompExists` | src/external/SMIOL/smiol.c:2107-2282 | for all arguments there is a decomposition that the ranks build |
| `EndToEnd.BuildsFits` | src/external/SMIOL/smiol.c:2251-2282 | so every decomposition that is built can be used for puts and gets of fields of its shape |
| `EndToEnd.WrittenBy` | src/external/SMIOL/smiol.c:1179-1230 | each rank's part lands at its place in the file's variable, because no other rank writes there |
| `EndToEnd.Route` | src/external/SMIOL/smiol.c:1163-1170 | for every element there is one I/O rank that holds its ID and a pair of matching list entries that carry it there from the root of its group |
| `EndToEnd.PutWritesById` | src/external/SMIOL/smiol.c:1108-1175 | SMIOL_put_var writes each element's value at its global ID, whatever the distribution, I/O layout and aggregation |
| `EndToEnd.GetReadsById` | src/external/SMIOL/smiol.c:1539-1595 | SMIOL_get_var returns to every rank, for each of its elements, the file's value at its global ID |
| `EndToEnd.PutIsTheField` | src/external/SMIOL/smiol.c:2107-2282 | if the compute IDs are a permutation of 0..n-1 and all I/O ranks exist, the file's variable after a put is the field by global ID, for any decomposition |
| `EndToEnd.PutThenGet` | src/external/SMIOL/smiol.c:1068-1175 | a field written under one decomposition and read under any other of the same size arrives as the other distributes it |
| `EndToEnd.AnyFactor` | src/external/SMIOL/smiol.c:2205-2217 | the choice of a positive aggregation factor makes no difference to the file |
| `EndToEnd.AloneKeepsOwn` | src/external/SMIOL/smiol.c:2235-2249 | a rank alone in its group has the same elements with aggregation as without |
| `Chunks.MoveChunks` | src/external/SMIOL/smiol.c:2624-2682 | the loop of one I/O rank makes exactly the calls of its plan, stops after the common number of rounds, and returns the error of its last call |
| `Chunks.LeavesExactly` | src/external/SMIOL/smiol.c:2673-2681 | all ranks go on after call i exactly if no call of any rank has failed and some rank still has a piece left |
| `Chunks.RoundsAre` | src/external/SMIOL/smiol.c:2646-2682 | without failures every rank makes max(1, the largest ceil(count / max_count)) calls; after a failing call all ranks leave |
| `Chunks.CallFits` | src/external/SMIOL/smiol.c:2630-2640 | no call moves more than INT_MAX bytes |
| `Chunks.CallIsLargest` | src/external/SMIOL/smiol.c:2630-2640 | each call moves all that is left of the part, or so much that one element more would pass INT_MAX bytes |
| `Chunks.CallsTile` | src/external/SMIOL/smiol.c:2645-2682 | the pieces a rank writes tile its range once and in order: together they are one write of it |
| `Chunks.AnyOrder` | src/external/SMIOL/smiol.c:2645-2682 | in whatever order the calls of all ranks reach the file, it ends up as if each rank had written its part in one piece, one rank after the other |
| `Chunks.PutVarByCalls` | src/external/SMIOL/smiol.c:1179-1230 | so the result of SMIOL_put_var is what the chunk calls of all ranks leave, in whatever order |
| `Chunks.ReadsTile` | src/external/SMIOL/smiol.c:2798-2848 | reading in pieces fills the buffer like one read |
| `Chunks.OffsetsInStep` | src/external/SMIOL/smiol.c:2662-2668 | buf_offset and the start index stay in step with what has been moved |
| `Chunks.AllMovedExactly` | src/external/SMIOL/smiol.c:2630-2681 | when the ranks leave, a rank has moved all its elements if and only if it had none, or an element is at most INT_MAX bytes and no call of any rank has failed before this one's last; when an element is larger nothing is moved, after one call |
| `Chunks.SilentExactly` | src/external/SMIOL/smiol.c:2630-2681 | a rank returns no error with elements unmoved if and only if an element is too large, it had some, and its one call succeeds, or the first call that fails comes before this rank's last and fails on other ranks only |
| `Chunks.OtherFailureIsSilent` | src/external/SMIOL/smiol.c:2673-2681 | two ranks with one and two elements of INT_MAX bytes: when the call of the first fails, the second returns no error with one element unmoved |
| `Chunks.OversizedIsLost` | src/external/SMIOL/smiol.c:2630-2641 | one element of INT_MAX + 1 bytes: the ranks leave after one call, none fails, and nothing is moved |
| `Buffered.SmiolFile.WriteChunk` | src/external/SMIOL/smiol.c:2611-2726 | a put's new pending state and return code; the request slot used is below MAX_REQS and allocated, except when the put is made without an attached buffer, which is reported |
| `Buffered.SmiolFile.Flush` | src/external/SMIOL/smiol.c:1484-1494 | a read, sync or close starts with nothing pending |
| `Buffered.SameBranches` | src/external/SMIOL/smiol.c:2624-2714 | in step, all I/O ranks take the same branch at every collective call |
| `Buffered.PutInStepExactly` | src/external/SMIOL/smiol.c:2611-2726 | a put keeps the ranks in step if and only if it is not buffered, or the library's answers let all or none of them make the buffered put; the usage that a rank reports after a failed inquiry is arbitrary |
| `Buffered.OneFailureBreaksStep` | src/external/SMIOL/smiol.c:2707-2724 | two ranks with MAX_REQS requests wait; when one of the waits fails they have different n_reqs, and the next flush makes its collective call on one of them only |
| `Buffered.PutKeepsBounds` | src/external/SMIOL/smiol.c:2695-2724 | whatever the library answers, and whether or not the ranks are in step, a put leaves at most MAX_REQS requests and at most bufsize bytes pending |
| `Buffered.RunBounded` | src/external/SMIOL/smiol.c:2611-2726 | so does every run of puts and flushes, at every point, whatever the library answers |
| `Buffered.RunInStep` | src/external/SMIOL/smiol.c:2611-2726 | in every run in which no inquiry or wait of a put fails all I/O ranks have the same n_reqs at every point |
| `Buffered.PutIs` | src/external/SMIOL/smiol.c:2684-2724 | a put without errors that fits the buffer on all ranks adds one request and its bytes on each, to what is pending if there is room on all, and else alone; one that does not fit on some rank changes nothing pending |
| `Buffered.FailedPutIs` | src/external/SMIOL/smiol.c:2690-2724 | what is pending on a rank on which the inquiry or the wait fails, and when a rank waits |
| `Buffered.FlushIs` | src/external/SMIOL/smiol.c:1484-1494 | a flush leaves no requests and no bytes |
| `Buffered.OpenedIsAccounted` | src/external/SMIOL/smiol.c:366-388 | a file that has just been opened has no requests, no bytes and no puts |
| `Buffered.RunIsAccounted` | src/external/SMIOL/smiol.c:2611-2726 | in every run without errors the usage of each rank is the sum of the bytes of its last small puts, as many as it has requests |
| `Buffered.BufferedMeansAttached` | src/external/SMIOL/smiol.c:2684-2688 | the buffered branch runs without an attached buffer if and only if bufsize is 0 and no rank has anything to write, which the code's comment rules out |
| `Buffered.StrayExactly` | src/external/SMIOL/smiol.c:2690-2724 | in that case a rank puts a request into the array that was never allocated if and only if the greatest reported usage is 0, it has fewer than MAX_REQS requests and its inquiry succeeds, or else its wait succeeds |
| `Buffered.PutWithoutBuffer` | src/external/SMIOL/smiol.c:2684-2724 | it does so when the inquiry finds no bytes in use, and also when the inquiry fails and leaves 1 in the uninitialised variable, since the wait then replaces the error |
| `FileRuns.CompletedIsMeant` | src/external/SMIOL/smiol.c:2707-2724 | completing pending requests of all ranks leaves each variable as the puts mean it, one after the other, when no older request for a variable is completed last |
| `FileRuns.InTurnHonours` | src/external/SMIOL/smiol.c:2707-2724 | requests completed in the order in which they were made are such |
| `FileRuns.OneEachHonours` | src/external/SMIOL/smiol.c:2707-2724 | and so are requests for different variables in any order |
| `FileRuns.AnyOrderExactly` | src/external/SMIOL/smiol.c:2707-2724 | every order of completion leaves a variable as its puts mean it if and only if all pending puts to it hold the same data as the last |
| `FileRuns.OlderPutSurvives` | src/external/SMIOL/smiol.c:2707-2724 | two pending puts of 1 and 2 to a variable, completed in the other order, leave 1 |
| `FileRuns.OpenedAgrees` | src/external/SMIOL/smiol.c:366-388 | a file that has just been opened has nothing pending, and holds what it held |
| `FileRuns.EventAgrees` | src/external/SMIOL/smiol.c:2611-2726 | every put, buffered or not, and every flush, in which the library makes no error, keeps the file with all pending requests taken as done equal to the puts made one by one |
| `FileRuns.FlushLeavesWanted` | src/external/SMIOL/smiol.c:1484-1510 | a get, sync or close leaves nothing pending and every variable as the puts so far mean it |
| `FileRuns.GetReturnsLatest` | src/external/SMIOL/smiol.c:1068-1240 | a get after any run returns a variable as its latest put left it |
| `FileRuns.FieldInFile` | src/external/SMIOL/smiol.c:1068-1240 | a field that is put under any decomposition is by global ID what a get finds after any run in which its variable is not put again |
| `EzxmlTree.Tag.Insert` | src/external/ezxml/ezxml.c:856-895 | inserting a fresh tag leaves exactly the ordered, sibling and next links that the children in document order demand, and changes no other field |
| `EzxmlTree.Tag.AddChild` | src/external/ezxml/ezxml.c:899-911 | a new tag without children, inserted at the offset |
| `EzxmlTree.Tag.Child` | src/external/ezxml/ezxml.c:67-72 | the lookup returns the first child of the name in document order, or none if there is none |
| `EzxmlTree.Idx` | src/external/ezxml/ezxml.c:76-80 | following next idx times gives that number of the tags of the name, or none |
| `ChildIndex.InsertKeepsValid` | src/external/ezxml/ezxml.c:864-892 | every insertion keeps the sibling list in document order, starting with the first child and holding the first child of every name |
| `ChildIndex.InsertKeepsExactly` | src/external/ezxml/ezxml.c:880-891 | it keeps exactly one entry per name if and only if the new child does not go before the first child under that child's name |
| `ChildIndex.TwoEntries` | src/external/ezxml/ezxml.c:880-891 | a second tag put before the first one, both named a, leaves two sibling entries for a |
| `ChildIndex.DocumentOrder` | src/external/ezxml/ezxml.c:864-875 | the ordered list is the stable sort of the insertions by offset |
| `ChildIndex.ParserOrder` | src/external/ezxml/ezxml.c:232 | with non-decreasing offsets, as the parser inserts, every child is appended and the sibling list has exactly one entry per name |
| `ChildIndex.ChainIsAll` | src/external/ezxml/ezxml.c:67-80 | from the child a lookup returns, next visits exactly the children of that name in document order |
| `ChildIndex.NthOfName` | src/external/ezxml/ezxml.c:100-128 | a lookup by name and number returns that number of the children of the name |
| `Utf.PayloadLengthIs` | src/external/ezxml/ezxml.c:451-452 | (bits - 2) / 5 is the number of following bytes on every range of UTF-8 |
| `Utf.CodeWritesUtf8` | src/external/ezxml/ezxml.c:449-455 | for every character below 0x110000 the bytes the shifts and masks write are its UTF-8 encoding (section 3 of RFC 3629) |
| `Utf.AnyCharacter` | src/external/ezxml/ezxml.c:449-455 | any number from 0x80 on is written as a head and the fewest bytes of six bits each that have room for it |
| `Utf.AppendChar` | src/external/ezxml/ezxml.c:448-455 | the room made before a character is always enough for its bytes |
| `Utf.Str2Utf8` | src/external/ezxml/ezxml.c:429-458 | text is converted exactly if it starts with a byte-order mark, unit by unit to the end |
| `Utf.Utf16BecomesUtf8` | src/external/ezxml/ezxml.c:437-456 | well-formed UTF-16 of either order becomes the UTF-8 encoding of the same characters |
| `Utf.AnyTwoUnits` | src/external/ezxml/ezxml.c:442-446 | in text that is not well-formed any unit from 0xD800 to 0xDFFF, a low half too, is joined with whatever unit comes next |
| `Utf.LoneUnit` | src/external/ezxml/ezxml.c:439-455 | at the end such a unit is written as three bytes, and an odd last byte is dropped |
| `Utf.ConvertDocument` | src/external/ezxml/ezxml.c:429-458 | a document that is a byte-order mark and the UTF-16 of any scalar values comes out as their UTF-8 |
| `Escapes.AmpEncode` | src/external/ezxml/ezxml.c:674-695 | appends the encoding of the text up to len or the terminator; every piece and its terminator is written within max |
| `Escapes.EncodingOf` | src/external/ezxml/ezxml.c:682-692 | the encoding of every character, in text and in attributes, by literal equations |
| `Escapes.EncodeSplits` | src/external/ezxml/ezxml.c:680-695 | a text is encoded character by character, up to its first NUL |
| `Escapes.NormalizeLineEnds` | src/external/ezxml/ezxml.c:170-175 | line ends become line feeds (section 2.11 of XML 1.0); the cursor steps over the terminator if and only if the text ends in CR or CR LF |
| `Escapes.LineEndsAre` | src/external/ezxml/ezxml.c:170-175 | a carriage return with the line feed that may follow it becomes one line feed, and nothing else changes |
| `Escapes.FinalCrOverruns` | src/external/ezxml/ezxml.c:170-175 | on the text a followed by a carriage return the cursor steps over the terminator |
| `Escapes.LooseExpanded` | src/external/ezxml/ezxml.c:191-205 | expanding an entity lowers the number of ampersands that begin no character reference, so decoding ends |
| `Escapes.ReferenceFits` | src/external/ezxml/ezxml.c:180-190 | the bytes written for a character reference never reach its semicolon, so the rest can be moved down onto it |
| `Escapes.Decode` | src/external/ezxml/ezxml.c:165-209 | decoding with the default entities terminates with the specified text |
| `Escapes.CharRefDecodes` | src/external/ezxml/ezxml.c:180-190 | a decimal or hexadecimal reference is replaced by its bytes, which are not decoded again |
| `Escapes.StrtolReads` | src/external/ezxml/ezxml.c:180-181 | every spelling of a number, with spaces, sign, prefix, leading zeros and letters of either case, reads as the number by a digit table of its own |
| `Escapes.SpelledRefDecodes` | src/external/ezxml/ezxml.c:180-190 | a reference decodes to the bytes of its number, however its digits are spelled |
| `Escapes.SignedRefDecodes` | src/external/ezxml/ezxml.c:180-190 | so it does with spaces, a sign and the prefix of C, for negative numbers, and beyond the limits of a long for the limit |
| `Escapes.RefBytesAre` | src/external/ezxml/ezxml.c:184-190 | a number below 0x80, or negative, is one char that is congruent to it modulo 0x100; any other is its bytes, UTF-8 below 0x110000 |
| `Escapes.OtherNumberStays` | src/external/ezxml/ezxml.c:182 | a number that is 0 or has no semicolon behind it is no reference |
| `Escapes.ScalarRefDecodes` | src/external/ezxml/ezxml.c:180-190 | for a Unicode scalar value these bytes are its UTF-8 encoding |
| `Escapes.EntityDecodes` | src/external/ezxml/ezxml.c:843-844 | each default entity stands for its character, and a decoded ampersand starts nothing new |
| `Escapes.OtherAmpersandStays` | src/external/ezxml/ezxml.c:191-205 | an ampersand that begins no default entity stays |
| `Escapes.OtherCharsStay` | src/external/ezxml/ezxml.c:206 | every other character stays, except that white space in an attribute becomes a space |
| `Escapes.TextRoundTrip` | src/external/ezxml/ezxml.c:674-695 | decoding the text encoding of a string gives it back up to its first NUL; all of it if and only if there is no NUL |
| `Escapes.AttributeRoundTrip` | src/external/ezxml/ezxml.c:206 | decoding the attribute encoding gives the string back if and only if it has no NUL, vertical tab or form feed |
| `Escapes.VerticalTabIsLost` | src/external/ezxml/ezxml.c:206 | an attribute that is a vertical tab comes back as a space |
| `Escapes.EncodedIsSafe` | src/external/ezxml/ezxml.c:682-692 | encoded text has no CR, '<', '>' or NUL, and in an attribute no quotation mark, line feed or tab |
| `Printer.PutAttrs` | src/external/ezxml/ezxml.c:714-722 | an attribute is printed if the value found for its name is at the address of its own, in order, within the buffer |
| `Printer.OnceByNameExactly` | src/external/ezxml/ezxml.c:714-722 | that prints the first attribute of each name and no other if and only if no two attributes of one name share a value |
| `Printer.AttrPrints` | src/external/ezxml/ezxml.c:714-722 | one attribute more is printed behind the others as a space, its name, an equals sign and its encoded value in double quotation marks, if there is none of its name yet |
| `Printer.LeafPrints` | src/external/ezxml/ezxml.c:713-743 | a tag without tags in it is an opening tag, its encoded text and a closing tag, never a self-closing one |
| `Printer.LastKidPrints` | src/external/ezxml/ezxml.c:707-747 | when the offsets are in order the last tag stands at its offset, behind what is printed of all before it |
| `Printer.OutOfOrderRepeats` | src/external/ezxml/ezxml.c:707-747 | a tag behind one with a greater offset comes at the end of the text, of which what lies behind its offset is printed once more |
| `Printer.ToXmlR` | src/external/ezxml/ezxml.c:700-748 | the recursive printer appends the parent's text and tags from the given tag on, each piece within the grown buffer |
| `Printer.ToXml` | src/external/ezxml/ezxml.c:752-788 | the printed document is the printed root tag |
| `Parser.ScanAttrs` | src/external/ezxml/ezxml.c:506-541 | the attribute loop reads what the specification of attributes says, or reports the missing quotation mark |
| `Parser.TagCase` | src/external/ezxml/ezxml.c:495-563 | the case of a new tag: opened, opened and closed, or the error |
| `Parser.ParseStr` | src/external/ezxml/ezxml.c:477-607 | the parser's loop refines the recursive specification and ends on every input |
| `Grammar.ClassesAre` | src/external/ezxml/ezxml.c:495-500 | which characters are white space and may begin a name |
| `Grammar.AttrMeans` | src/external/ezxml/ezxml.c:506-541 | an attribute as it may be written, with either quotation mark, none or no value, is read as its name and decoded value |
| `Grammar.AttrSplits` | src/external/ezxml/ezxml.c:506-541 | whatever is read as an attribute is written so |
| `Grammar.TokenReads` | src/external/ezxml/ezxml.c:495-580 | an opening, self-closing or closing tag, comment or cdata section as it may be written does to the open tags what it is to do |
| `Grammar.TokenSplits` | src/external/ezxml/ezxml.c:495-580 | whatever is read as markup is such a token |
| `Grammar.OnwardReads` | src/external/ezxml/ezxml.c:592-599 | the text behind a token is added, decoded, to the tag opened last |
| `Grammar.ParsedExactly` | src/external/ezxml/ezxml.c:477-607 | a document is parsed without an error if and only if it is text and tokens whose tags nest by name, with one root, all closed |
| `Grammar.ParsedAs` | src/external/ezxml/ezxml.c:477-607 | and then as the tree its tokens and texts make one after the other |
| `Grammar.WrongClose` | src/external/ezxml/ezxml.c:264-272 | a closing tag that does not name the tag opened last is an error that names it |
| `Grammar.SecondRoot` | src/external/ezxml/ezxml.c:496-497 | a second root is an error |
| `Grammar.EndOfDocument` | src/external/ezxml/ezxml.c:604-606 | at the end of the text an open tag, or no tag at all, is an error |
| `Grammar.NoTagAtAll` | src/external/ezxml/ezxml.c:484-493 | so is a document without a tag |
| `Grammar.OpenQuote` | src/external/ezxml/ezxml.c:524-530 | a value without its closing quotation mark |
| `Grammar.MissingGtIs` | src/external/ezxml/ezxml.c:543-562 | a tag without a closing bracket |
| `Grammar.UnclosedCommentIs` | src/external/ezxml/ezxml.c:572-575 | a comment without an end |
| `Grammar.DashesInComment` | src/external/ezxml/ezxml.c:572-575 | and one with two dashes inside |
| `Grammar.UnclosedCdataIs` | src/external/ezxml/ezxml.c:576-580 | a cdata section without an end |
| `Grammar.UnexpectedLtIs` | src/external/ezxml/ezxml.c:590 | anything else behind a < |
| `RoundTrip.AttrsRead` | src/external/ezxml/ezxml.c:506-541 | printed attributes are read back in order, up to the end of the tag |
| `RoundTrip.OpeningReads` | src/external/ezxml/ezxml.c:495-563 | a printed opening tag is read back |
| `RoundTrip.ClosingReads` | src/external/ezxml/ezxml.c:564-570 | a printed closing tag closes the tag it names, also as the last thing in the document |
| `RoundTrip.TextReads` | src/external/ezxml/ezxml.c:593-599 | printed text between markup is read back onto the end of the text so far |
| `RoundTrip.TagReads` | src/external/ezxml/ezxml.c:228-272 | a printed tag with everything in it is read back as one child at the offset of the text before it |
| `RoundTrip.ContentReads` | src/external/ezxml/ezxml.c:593-599 | the printed rest of a tag's content is read back from any child on |
| `RoundTrip.CommentsAreSkipped` | src/external/ezxml/ezxml.c:572-575 | a comment changes nothing |
| `RoundTrip.CdataIsText` | src/external/ezxml/ezxml.c:576-580 | a cdata section adds its characters as they are |
| `RoundTrip.SelfClosingIsEmpty` | src/external/ezxml/ezxml.c:543-551 | a self-closing tag is a tag without content |
| `RoundTrip.ParserUndoesPrinter` | src/external/ezxml/ezxml.c:477-607 | parsing a printed tree gives the tree: names, attributes, text, offsets and child order |
| `RoundTrip.PrintAndParse` | src/external/ezxml/ezxml.c:700-788 | the printer followed by the parser returns the tree they were given |
| `HaloExchange.PackBuffers` | src/core_landice/mode_forward/Interface_velocity_solver.cpp:1866-1875 | every buffer is packed from the field as it was before the exchange |
| `HaloExchange.UnpackBuffers` | src/core_landice/mode_forward/Interface_velocity_solver.cpp:1877-1885 | the buffers are unpacked in list order |
| `HaloExchange.ExchangedAt` | src/core_landice/mode_forward/Interface_velocity_solver.cpp:1849-1889 | after an exchange an item has the value that the item of its name had on the process of the last entry listing it, or its old one |
| `HaloExchange.StepKeepsInv` | src/core_landice/mode_forward/Interface_velocity_solver.cpp:1849-1889 | every packing or unpacking step of any process keeps messages equal to the values from before the exchange |
| `HaloExchange.NeverStuck` | src/core_landice/mode_forward/Interface_velocity_solver.cpp:1849-1889 | no unfinished state that keeps the invariant is stuck, so none that is reachable |
| `HaloExchange.RunInv` | src/core_landice/mode_forward/Interface_velocity_solver.cpp:1849-1889 | every state a run reaches keeps the invariant, and each step is counted |
| `HaloExchange.EveryRun` | src/core_landice/mode_forward/Interface_velocity_solver.cpp:1849-1889 | every run is bounded, and all finished runs leave the same fields after the same number of steps |
| `ExchangeSequence.MoveKeeps` | src/core_landice/mode_forward/Interface_velocity_solver.cpp:1849-1889 | in a sequence of exchanges without a barrier every send, receive or advance of any process keeps the invariant: what is on the way between two processes is what the exchanges in between are to deliver, oldest first |
| `ExchangeSequence.NeverStuck` | src/core_landice/mode_forward/Interface_velocity_solver.cpp:1849-1889 | until all processes are done some process can go on, even if none leaves an exchange before its messages are received |
| `ExchangeSequence.EveryRunOfPlan` | src/core_landice/mode_forward/Interface_velocity_solver.cpp:1849-1889 | every run of the sequence is bounded, is stuck only when all are done, and then has left the fields that the exchanges leave when made one at a time |
| `Numbering.GetProcIds` | src/core_landice/mode_forward/Interface_velocity_solver.cpp:1725-1738 | an item gets the rank of the last entry listing it, else the process's own |
| `Numbering.ProcIdIsOwner` | src/core_landice/mode_forward/Interface_velocity_solver.cpp:1725-1738 | read off consistent halo lists this is the owner |
| `Numbering.ForwardCopies` | src/core_landice/mode_forward/Interface_velocity_solver.cpp:1808-1846 | an exchange along the halo lists gives every copy the owner's value and leaves the owner's alone |
| `Numbering.ComputeLocalOffset` | src/core_landice/mode_forward/Interface_velocity_solver.cpp:1691-1707 | a process's offset is the sum of the counts before it, and the total that of all |
| `Numbering.AssignIds` | src/core_landice/mode_forward/Interface_velocity_solver.cpp:590-596 | the items a process counts get consecutive numbers from its offset, all others none |
| `Numbering.NumbersAreGlobal` | src/core_landice/mode_forward/Interface_velocity_solver.cpp:718-727 | after the exchange marked items have the same number on every process, different ones different numbers below the total, and other items none |
| `ReverseLists.CreateReverseLists` | src/core_landice/mode_forward/Interface_velocity_solver.cpp:1212-1285 | the two loops over the cells fill the send and receive maps of the specification, and the lists are the maps in key order; with two corners each it is the version for edges at lines 1287-1357 |
| `ReverseLists.SendRowsAre` | src/core_landice/mode_forward/Interface_velocity_solver.cpp:1226-1249 | the row for a process holds exactly the touched cells it owns and has no triangle on, in order of their global IDs |
| `ReverseLists.RecvRowsAre` | src/core_landice/mode_forward/Interface_velocity_solver.cpp:1263-1277 | the row for a process holds exactly the cells to receive on which it has a triangle, in order of their global IDs |
| `ReverseAgreement.PairAgrees` | src/core_landice/mode_forward/Interface_velocity_solver.cpp:1212-1285 | p's reverse send list for q and q's reverse receive list from p have equal length and name the same cell at every place, and a cell is on them if and only if p touches it, q owns it and no triangle of q touches it |
| `ReverseAgreement.ReverseListsAgree` | src/core_landice/mode_forward/Interface_velocity_solver.cpp:1287-1357 | so the reverse lists of all processes match, for cells and for edges |
| `VerticesToCells.SortOutCells` | src/core_landice/mode_forward/Interface_velocity_solver.cpp:697-717 | which cells local triangles touch, which owned cells are numbered, and which of these must be received |
| `VerticesToCells.SortedOutFits` | src/core_landice/mode_forward/Interface_velocity_solver.cpp:697-717 | these tests, made on local tables, decide what the triangles of the whole mesh touch |
| `VerticesToCells.IdsNumberCells` | src/core_landice/mode_forward/Interface_velocity_solver.cpp:719-727 | the global IDs that the processes compute and exchange are as the reverse lists need them |
| `CellColumns.FillColumns` | src/core_landice/mode_forward/Interface_velocity_solver.cpp:1177-1201 | with both orderings the column of a cell that a vertex of the triangle mesh stands for becomes the column of that vertex, layer by layer and component by component, and every other cell is zero |
| `CellColumns.PlacesFollow` | src/core_landice/mode_forward/Interface_velocity_solver.cpp:1177-1201 | where the values are: layers next to each other in a cell, then the next cell, then the next component; in the solution by vertices or by layers, as the ordering says |
| `VerticesToCells.LastToGive` | src/core_landice/mode_forward/Interface_velocity_solver.cpp:1212-1285 | the last value an owner unpacks for a cell comes from the greatest rank whose triangles touch it; none comes when its own do |
| `VerticesToCells.AllCopiesAgree` | src/core_landice/mode_forward/Interface_velocity_solver.cpp:1204-1209 | after the reverse and the forward exchange every copy of a cell on every process has the value of its owner if the owner has a triangle on it, else of the greatest rank that has, else zero |
| `VerticesToCells.CopiesAreEqual` | src/core_landice/mode_forward/Interface_velocity_solver.cpp:1849-1889 | two copies of a cell are equal after any interleaving of each exchange |
| `Unsynchronized.ReverseIsPaired` | src/core_landice/mode_forward/Interface_velocity_solver.cpp:1250-1284 | a process sends along its reverse list exactly when the other one waits for it |
| `Unsynchronized.LayersAreFilled` | src/core_landice/mode_forward/Interface_velocity_solver.cpp:1177-1201 | each layer of each component starts with the solution's values at the cells of the process's vertices, as the exchanges ask for |
| `Unsynchronized.CopiesAreEqualUnsynchronized` | src/core_landice/mode_forward/Interface_velocity_solver.cpp:1204-1209 | the exchanges as the code makes them, layer after layer and component after component, first along the reverse and then along the halo lists, without a barrier: no run is stuck before the end or without one, and then two copies of a cell are equal in all their values |
| `Unsynchronized.CopiesAreGivenUnsynchronized` | src/core_landice/mode_forward/Interface_velocity_solver.cpp:1204-1209 | and every copy then has, in every layer of every component, the value of the owner if the owner has a triangle on the cell, else of the greatest rank that has, else zero |
| `Prism.PrismType` | src/core_landice/mode_forward/Interface_velocity_solver.cpp:1939-1948 | the place of the first smallest ID, and which of the other two is larger as an int |
| `Prism.TetrasFromPrismStructured` | src/core_landice/mode_forward/Interface_velocity_solver.cpp:1950-1978 | the twelve corners written are those of the specified split |
| `Prism.CutFromSmaller` | src/core_landice/mode_forward/Interface_velocity_solver.cpp:1939-1963 | every lateral face is cut from the bottom at its smaller ID to the top at its larger one if and only if the two larger IDs keep their order as ints, as they do when all fit |
| `Prism.SharedFacesAgree` | src/core_landice/mode_forward/Interface_velocity_solver.cpp:1950-1978 | two prisms with a lateral face in common cut it into the same triangles if and only if both let its diagonal run the same way: up from the first smallest ID of the prism, else up from the ID that is smaller as an int |
| `Prism.OrderedFacesAgree` | src/core_landice/mode_forward/Interface_velocity_solver.cpp:1950-1978 | they do when both prisms keep the order of their two larger IDs as ints, wherever the face is on each |
| `Prism.WideIdsDisagree` | src/core_landice/mode_forward/Interface_velocity_solver.cpp:1939-1978 | prisms with the IDs 0, 1, 2^31 and 1, 2^31, 5000000000 cut the face over 1 and 2^31 differently: the mesh does not conform there |
| `Prism.TrianglesMatch` | src/core_landice/mode_forward/Interface_velocity_solver.cpp:1954 | a triangle of the split belongs to two tetrahedra if it is inside the prism and to one if it is on the boundary; bottom and top are not cut |
| `Prism.VolumeKept` | src/core_landice/mode_forward/Interface_velocity_solver.cpp:1950-1978 | for a positively oriented base and positive heights all three signed volumes are positive, and always they add up to area * (h0 + h1 + h2) / 3 |

## Left out

- Bodies of MPI and Parallel-NetCDF calls, communicators and datatypes: given by contracts or as parameters, as described above.
- Allocation failures, error strings, `lib_type` and `lib_ierr`, and freeing memory.
- Scalar variables (src/external/SMIOL/smiol.c:2584-2592): they add a request without looking at MAX_REQS, so the bounds of the buffered runs are not claimed for them.
- Undecomposed multi-dimensional writes on I/O ranks other than the first (src/external/SMIOL/smiol.c:2529-2531): their counts are zeroed, so the divisor of the chunk loop is zero. The chunk loops are modelled for a positive element size.
- `build_start_count` beyond the start and count of a decomposed variable: dimension inquiries and record dimensions.
- Aggregation by shared memory (factor 0): any grouping of ranks is covered by the model of groups, but how MPI forms it is a parameter.
- TransferBytes.TransferField: the lists are read-only sequences rather than arrays, and the element counts in them are taken to fit an int, as the limit check of build_exchange ensures. That MPI delivers what it is handed presupposes that the byte counts are right (TransferBytes.MpiCountExactly).
- TransferSequence.EveryRunOfCalls: a call's fields are given with the call; that the source of one call is what an earlier call left is up to the caller, between whose calls a rank does not communicate.
- Triplets.SearchTripletArray: the C library's search may return any triplet with the key; the model bisects, and the lemmas on the ring hold for every search that finds a match exactly when there is one.
- Triplets.SortTripletArray: modelled by an insertion sort; later modules use only that the result is a sorted permutation.
- Buffered.SmiolFile.WriteChunk: what the write into an array that was never allocated does is not modelled; `stray` only tells that it is made. The code reads a variable that a failed inquiry leaves uninitialised; it is taken to hold an arbitrary number.
- Buffered.RunInStep: when ranks are out of step and only some of them make a collective call, the library's behaviour is unknown; the bounds of Buffered.RunBounded are about the state that each rank then computes from its own answers.
- FileRuns.EventAgrees: runs without library errors. A write that is not buffered is made in one piece, as Chunks.PutVarByCalls justifies. In which order the library completes requests is a parameter.
- Errors that MPI calls return inside the ring, which the code does not look at.
- `ezxml_cut`: cutting the first of children named a, b, a makes b the head and leaves the second a out of the sibling list, so the index does not survive it.
- Document types, entity declarations, default attributes and processing instructions: the parser's specification answers `NotModelled` for them, and `ezxml_decode` is modelled with the default entities, for text, attribute values and cdata sections.
- Escapes.Decode: only the five default entities and the modes for text, attribute values and cdata are decoded, not parameter entities or attributes normalized otherwise. The buffer is a string variable, so memory handed over by `malloc` and `realloc` is not modelled; what the overrun after a final carriage return does to the text behind it is not modelled either (the parser's specification answers `NotModelled`). For references of 2^41 and more, where the C shift is undefined, an arbitrary head byte stands in.
- Printer.PutAttrs: default attributes of document types are not printed. Printer.ToXmlR prints tags whose values have addresses of their own, as the parser and ezxml_set_attr leave them.
- Printer.ToXml: the processing instructions before and after the root are left out, as the parser's specification does not read them.
- Parser.ParseStr: the tree is a value and the open tags are a stack; the links between tags are the subject of EzxmlTree. A tag joins its parent when it is closed rather than when it is opened, which gives the same children in the same order. On an error the code also returns the tree so far. Text in UTF-16 is converted first (Utf), which the parser's specification does not repeat.
- RoundTrip.ParserUndoesPrinter: the root is read back with offset 0, as the parser gives it, whatever its offset was.
- File and descriptor wrappers, mmap, and the test harness of ezxml.
- ExchangeSequence.EveryRunOfPlan: receives are posted and completed in list order one at a time, where the code posts all of an exchange at its beginning; since a process ends an exchange before it posts for the next, a receive gets the same message.
- HaloExchange.EveryRun: one exchange from a common beginning; several without one are the subject of ExchangeSequence.
- ReverseAgreement.ReverseListsAgree: that local tables restrict one global mesh, and that a process has all cells its triangles touch, are the hypotheses `IsView` states; the Fortran side provides them.
- `mapCellsToVertices`, boundary and interface edges, ghost triangles, and all floating-point numerics of the land-ice interface; volumes are over the reals.
- src/tools/registry, src/framework and the rest of the repository.
