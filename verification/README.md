# FusedIndexTopK: a verified model

FusedIndexTopK selects, for every query row of a causal attention indexer, the K best-scoring
tokens of the row's range. It is fast because it guesses: a small sample gives each row a
score floor, the main kernel keeps only candidates at or above that floor in small on-chip
buffers, and a row whose guess was bad is flagged and repaired on the device, 16K columns at a
time. The repository claims that none of this ever changes the result. This project models the
operator and the code that judges it, and proves that claim.

Definition used throughout: a row of width K over `[start, end)` is *exact* when it holds
`min(K, end - start)` distinct in-range IDs, pads the rest with -1, and no unselected in-range
ID has a larger score than a selected one (`Exactness.IsExactRow`). K, the buffer sizes, the
chunk width and the number of chunks are symbolic; `FusedOperator.RunProductionOperator` is the
shipped instance (2048, 8 x 736 slots, 8 x 256 spill entries, 16 x 1024 columns a chunk).

## How the model is laid out

The kernels are imperative: methods over arrays and objects, each proved against a
specification on sequences and sets. A barrier is a phase boundary. Where threads or warps of a
phase share a counter, a histogram or a row's candidate storage, the loop picks *any* next piece
of work, so the proof covers every interleaving: the histogram passes, the emission, and both
candidate producers, whose warps advance one ID at a time. Loops over things that no two workers
share (rows, output slots, copies, sums of private counts) run in index order. Scores are their
order-preserving 32-bit keys, NaN excluded; `FloatKeys` ties the keys to the numbers that the
floats denote, and `Words` ties the arithmetic used here to the bit operations of the source.

| file | content |
|---|---|
| Arithmetic, Outcomes, Exactness | integer facts; results and options; what exact means; merging and filtering Top-Ks |
| Words, FloatKeys | machine words and the numbers they spell; binary32 numbers, their keys and back |
| WarpPrimitives | ballot reservation, peer histograms, both shuffle suffix scans, byte selection |
| RadixSelect | four byte rounds find the K-th largest key and how many of its ties are needed |
| Emission | reservation and writing by interleaved warps |
| CtaSelection, CandidateEmission, FusedRow | the fused kernel on one row |
| SlotHandoff | the ready and free barriers between the threads that fill candidate slots and those that select from them |
| PairReducer, HierarchicalRepair, ChunkRanges, RepairProducer | the repair kernels |
| FusedOperator, SampledThreshold, PrefillRun | all rows, all chunks, the sampled floor, and the judged run |
| TensorOps, OutputValidation, ScoreOracle | the output validators, the tie-aware oracle and the comparator |
| SafeIds, StageGraph, TopologicalOrder, GraphValidation, GraphExecution, ShippedGraph | the ID pattern as a regular expression, the stage graph, and the graph that the plugin itself prepares |
| BalancedPacking, CaseLifecycle | the replay packer and the benchmark case |

## Main results

- `PrefillRun.RunGraph`, `FusedOperator.RunOperator`: for every floor, infinities included, every
  number of rows a block, and whatever the workspaces held, every row ends unflagged and exact; the
  repair touches only rows the fused kernel flagged. `PrefillRun.PrepareAndRunGraph` allocates the
  workspaces as well, and asks nothing but the logits and the launch sizes; its result is also stated
  on the logits themselves: distinct positions up to the row's own, as many as fit, and no position
  left out has a larger logit as a number. `PrefillRun.JudgeRun`: such an output
  passes the oracle gate exactly when the reference itself is exact.
- `PrefillRun.SampleAndSelect`: sampling and selection composed. With distinct samples of rank at
  least k, a long row is settled exactly when in none of the eight ID groups do more tokens reach
  the sampled floor than the group's slots and spill hold; too few candidates can never be the cause.
  `SampledThreshold.FullSampleIsExact` says what the floor is when the sample is the whole range.
- `SlotHandoff.RunCta`: any interleaving of any number of filling and selecting threads over any
  number of slots, with or without overlap, ends with every selecting thread having read every
  block whole and in order; `SlotHandoff.Cta.SomeoneCanMove` rules out deadlock.
- `Emission.Emit`: under every interleaving of any number of warps each output slot is written
  exactly once, larger keys first, then exactly the ties needed.
- `HierarchicalRepair.RepairRow.RepairPublished`: for arbitrary published chunks, consistent or
  not, a row commits exactly when no chunk raised an error and enough pairs were seen.
- `ScoreOracle.JudgeCandidate`: once the oracle accepts a baseline, a candidate passes exactly
  when all its rows are exact: tied, untied and short ones; both sides are also stated in the case's
  three numbers. `ScoreOracle.BuildScoreThresholdOracle` says for each error when it is reported.
- `GraphExecution.OutcomeIsUnique`, `GraphExecution.SchedulesAgree`: a valid graph has one outcome, a
  store in which each stage's outputs are what it makes of that same store, and every schedule ends
  with it, whatever else the stages leave behind. `StageGraph.OrderIgnoresListing`: the order
  returned is the one greedy-smallest order. `GraphValidation.ValidateGraph` decides validity and
  the language of the ID pattern, and its error names the first check that fails;
  `ShippedGraph.ValidateShipped`: it accepts the plugin's own graph.
- `BalancedPacking.DocumentPools.PackBalancedDocuments`: every packed document stands in the output
  with its markers around a prefix of its text, at the position that the uses before it add up to.
- `BalancedPacking.LengthDecidesLast`: which packed lengths cut a document, and which consume one
  without recording it.
- `CaseLifecycle.RunCase`: exactly when a case passes, for graphs that may depend on the iteration
  and on all their earlier runs; a graph that ignores its input never does unless some rows are
  exact for both fixtures, and by `CaseLifecycle.ReplayMustFitEveryB` one that only replays what it
  kept cannot pass with two fixtures B that have no exact rows in common.

Found on the way: the list and tensor validators do **not** agree on every case. The tensor path
replaces padding by 2147483647 before sorting and then ignores equal neighbours with that value,
so two copies of ID 2147483647 go unnoticed. `OutputValidation.ValidatorsAgree` shows that they
agree on all outputs of a case exactly when the context has at most 2147483647 tokens, or the row
width is below two, or there are no rows; `OutputValidation.HiddenDuplicatePasses` is the
concrete output otherwise. Every context the operator supports is far below that limit.

Two things one would expect of `pack_balanced_documents` are false of the code. Its documentation
says that whole documents are consumed; in fact the last one is cut to fit. And every document it
pops should be recorded; in fact, when a single place is left, it pops a document, writes only the
end marker and records nothing. `BalancedPacking.CutDocument` and
`BalancedPacking.UnrecordedDocument` are concrete pools and lengths where each fails. Call a
length a *boundary* when some number of visits takes documents that need exactly that many tokens.
Then, for every packing that succeeds, all documents are whole exactly when the length is a
boundary, and every popped document is recorded, with the recorded tokens adding up to the length,
exactly when the length is not one more than a boundary. Both conditions are part of the contract
of `BalancedPacking.DocumentPools.PackBalancedDocuments`.

## Model

| member | source | states |
|---|---|---|
| Exactness.MergeTopK | src/fused_index_topk/kernel/csrc/long_context_repair.cu:341-405 | a Top-k of the union of two disjoint pools' Top-ks is a Top-k of both pools together |
| Exactness.FilterTopK | src/fused_index_topk/kernel/csrc/include/fused_index_topk/long_fused_topk.cuh:487-494 | dropping only candidates that k kept ones all match or beat leaves the Top-k a Top-k of the whole pool |
| Exactness.RowFromPairs | src/fused_index_topk/kernel/csrc/long_context_repair.cu:419-423 | writing the IDs of a full exact pair selection yields an exact row |
| Exactness.ShortRow | src/fused_index_topk/kernel/csrc/include/fused_index_topk/long_cta_topk.cuh:124-131 | listing the whole range and padding with -1 is exact whenever the range fits |
| FloatKeys.OrderEmbedding | src/fused_index_topk/kernel/csrc/sampling_threshold.cu:23-27 | keys order non-NaN floats as their numbers; equal keys are exactly equal numbers, that is the same word or the two zeros |
| FloatKeys.RoundTrip | src/fused_index_topk/kernel/csrc/sampling_threshold.cu:23-33 | the float recovered from a key is the original, with a negative zero made positive; no non-NaN float has key zero |
| FloatKeys.KeyRoundTrip | src/fused_index_topk/kernel/csrc/sampling_threshold.cu:29-33 | every key but one, which no float has, survives the trip through its float |
| FloatKeys.SignBit | src/fused_index_topk/kernel/csrc/sampling_threshold.cu:25-26 | masking out the top bit of a word tests whether its number is at least 2^31 |
| FloatKeys.MagnitudeBits | src/fused_index_topk/kernel/csrc/sampling_threshold.cu:25 | clearing the top bit of a word leaves its number modulo 2^31 |
| FloatKeys.FlippedSign | src/fused_index_topk/kernel/csrc/sampling_threshold.cu:26-31 | flipping the top bit of a word adds or subtracts 2^31 |
| FloatKeys.ComplementBits | src/fused_index_topk/kernel/csrc/sampling_threshold.cu:26-31 | complementing a word subtracts its number from 2^32 - 1 |
| FloatKeys.OrderedWordIsKey | src/fused_index_topk/kernel/csrc/sampling_threshold.cu:23-27 | the source's masks, complement and exclusive-or on the 32 bits of a float spell exactly the key |
| FloatKeys.FloatWordIsFloat | src/fused_index_topk/kernel/csrc/sampling_threshold.cu:29-33 | the reverse bit operations spell exactly the float of a key |
| FloatKeys.FiniteKeys | src/fused_index_topk/correctness.py:80-81 | the finite floats are the keys strictly between those of the infinities, and the NaNs those outside them |
| FloatKeys.ExactnessOverScores | src/fused_index_topk/kernel/csrc/include/fused_index_topk/long_fused_topk.cuh:38-46 | a row is exact over the packed keys exactly when it is exact over the scores as numbers |
| WarpPrimitives.Reserve | src/fused_index_topk/kernel/csrc/include/fused_index_topk/long_cta_topk.cuh:101-111 | the counter grows by the number of active lanes and each active lane gets the base plus the active lanes below it |
| WarpPrimitives.ReservationIsGapFree | src/fused_index_topk/kernel/csrc/long_context_repair.cu:118-130 | the offsets handed to active lanes are distinct and fill the reserved interval without gaps |
| WarpPrimitives.WarpHistogramAdd | src/fused_index_topk/kernel/csrc/sampling_threshold.cu:35-46 | one add per distinct bin has the effect of one add per active lane |
| WarpPrimitives.SuffixScanAscending | src/fused_index_topk/kernel/csrc/long_context_repair.cu:53-58 | shuffles by 1, 2, 4, 8, 16 leave each lane with the exact suffix sum |
| WarpPrimitives.SuffixScanDescending | src/fused_index_topk/kernel/csrc/include/fused_index_topk/long_cta_topk.cuh:221-226 | shuffles by 16, 8, 4, 2, 1 leave each lane with the same suffix sum |
| WarpPrimitives.BracketIsUnique | src/fused_index_topk/kernel/csrc/include/fused_index_topk/long_cta_topk.cuh:231-241 | at most one (lane, bin) sees the rank above its higher bins and within itself |
| WarpPrimitives.SelectByte | src/fused_index_topk/kernel/csrc/long_context_repair.cu:40-72 | a byte is found exactly when 1 <= rank <= total; it brackets the rank, and the count of higher keys is exact, for either scan |
| RadixSelect.PrefixBits | src/fused_index_topk/kernel/csrc/long_context_repair.cu:95-98 | masking a score and comparing it with the threshold so far is matching the leading bytes, and the shifted and masked byte is the digit |
| RadixSelect.ByteBits | src/fused_index_topk/kernel/csrc/long_context_repair.cu:112 | or-ing the selected byte into the threshold adds it at its weight |
| RadixSelect.RoundUnits | src/fused_index_topk/kernel/csrc/long_context_repair.cu:87 | the shifts 24, 16, 8 and 0 of the four rounds are the weights of the bytes |
| RadixSelect.RoundOnWords | src/fused_index_topk/kernel/csrc/long_context_repair.cu:82-114 | in each of the four rounds the prefix mask, the comparison and the shift on 32-bit words decide exactly what the arithmetic rounds do, and the threshold built up by or-ing bytes spells the same key |
| RadixSelect.DigitInterval | src/fused_index_topk/kernel/csrc/long_context_repair.cu:95-98 | matching the prefix and showing byte b is lying in one sub-interval of the key space |
| RadixSelect.HistogramTail | src/fused_index_topk/kernel/csrc/include/fused_index_topk/long_cta_topk.cuh:214-232 | the bins from b up count exactly the matching keys from that sub-interval up |
| RadixSelect.RoundKeepsInvariant | src/fused_index_topk/kernel/csrc/include/fused_index_topk/long_cta_topk.cuh:227-246 | fixing the bracketing byte keeps keys above + rank = K and 1 <= rank <= keys matching |
| RadixSelect.InitialInvariant | src/fused_index_topk/kernel/csrc/include/fused_index_topk/long_cta_topk.cuh:145-146 | before the first round everything matches and the rank is K |
| RadixSelect.KthLargestIsUnique | src/fused_index_topk/kernel/csrc/include/fused_index_topk/long_cta_topk.cuh:250-252 | the threshold and the number of ties to take are determined by the keys |
| RadixSelect.AtomicHistogramPass | src/fused_index_topk/kernel/csrc/include/fused_index_topk/long_cta_topk.cuh:174-204 | threads adding in any order give each bin its exact count |
| RadixSelect.WarpHistogramPass | src/fused_index_topk/kernel/csrc/long_context_repair.cu:91-99 | warps visiting 32-entry blocks in any order give each bin its exact count of flagged keys |
| RadixSelect.RoundHistogram | src/fused_index_topk/kernel/csrc/include/fused_index_topk/long_cta_topk.cuh:170-205 | clearing, scanning the slots and then the spill yields the round's histogram of all live keys |
| RadixSelect.DescendRound | src/fused_index_topk/kernel/csrc/include/fused_index_topk/long_cta_topk.cuh:212-246 | one round carries the invariant to a 256th of the span |
| RadixSelect.RadixRounds | src/fused_index_topk/kernel/csrc/include/fused_index_topk/long_cta_topk.cuh:166-252 | after four rounds the threshold is the K-th largest live key and the rank the ties it needs |
| RadixSelect.SelectScore | src/fused_index_topk/kernel/csrc/long_context_repair.cu:74-116 | the repair loop also returns the K-th largest flagged key |
| Emission.ReserveKeepsCursor | src/fused_index_topk/kernel/csrc/include/fused_index_topk/long_cta_topk.cuh:276-277 | an atomic reservation appends exactly the block's flagged positions to what was handed out |
| Emission.CursorIsBounded | src/fused_index_topk/kernel/csrc/include/fused_index_topk/long_cta_topk.cuh:276-285 | a cursor never hands out more slots than there are flagged positions |
| Emission.ReservedFits | src/fused_index_topk/kernel/csrc/include/fused_index_topk/long_cta_topk.cuh:278-282 | the slots reserved for larger scores lie inside their part of the output, so these writes need no guard |
| Emission.CursorIsComplete | src/fused_index_topk/kernel/csrc/include/fused_index_topk/long_cta_topk.cuh:260-307 | once every block has reserved, every flagged position was handed out exactly once |
| Emission.WriteKeepsPlaced | src/fused_index_topk/kernel/csrc/include/fused_index_topk/long_cta_topk.cuh:278-285 | a block's writes fill its own slots once and disturb no other block's |
| Emission.WriteSparesOther | src/fused_index_topk/kernel/csrc/include/fused_index_topk/long_cta_topk.cuh:278-285 | writes on one cursor's side leave the other cursor's slots alone |
| Emission.Emit | src/fused_index_topk/kernel/csrc/include/fused_index_topk/long_cta_topk.cuh:249-307 | under every interleaving of reservations and writes each slot is written exactly once, larger keys fill the front, needed ties the rest, and the counters end at the totals |
| Emission.AllBatchesTileRuns | src/fused_index_topk/kernel/csrc/include/fused_index_topk/long_cta_topk.cuh:260-293 | the 32-lane batches cover every live entry of slots and spill and do not overlap |
| Emission.EmissionIsTopK | src/fused_index_topk/kernel/csrc/include/fused_index_topk/long_cta_topk.cuh:249-307 | with the K-th largest key as threshold, what emission writes is an exact Top-k without repetition |
| Emission.EmitSelected | src/fused_index_topk/kernel/csrc/include/fused_index_topk/long_cta_topk.cuh:249-307 | the whole emission phase outputs an exact Top-k of the live candidates and fills every slot |
| CtaSelection.PackRoundTrip | src/fused_index_topk/kernel/csrc/include/fused_index_topk/long_cta_topk.cuh:60-81 | the 16-bit code plus the segment gives the ID back exactly when the ID is below 2^19 |
| CtaSelection.PackBits | src/fused_index_topk/kernel/csrc/include/fused_index_topk/long_cta_topk.cuh:66-70 | the 16 stored bits spell the arithmetic ID code |
| CtaSelection.UnpackBits | src/fused_index_topk/kernel/csrc/include/fused_index_topk/long_cta_topk.cuh:77-81 | the bits put together on loading spell the decoded ID |
| CtaSelection.PackRoundTripBits | src/fused_index_topk/kernel/csrc/include/fused_index_topk/long_cta_topk.cuh:66-81 | the kernel's shifts and masks give the ID's 32 bits back exactly when the ID is below 2^19 |
| CtaSelection.NothingDropped | src/fused_index_topk/kernel/csrc/include/fused_index_topk/long_cta_topk.cuh:132-150 | when no segment overflows, live positions number the published counts |
| CtaSelection.LiveRunsAreDisjoint | src/fused_index_topk/kernel/csrc/include/fused_index_topk/long_cta_topk.cuh:260-295 | slot and spill runs of different segments never share a position |
| CtaSelection.ScansAgree | src/fused_index_topk/kernel/csrc/include/fused_index_topk/long_cta_topk.cuh:174-194 | the flat scan with its divide and modulo visits a slot exactly when the segmented scan does |
| CtaSelection.ThresholdOf | src/fused_index_topk/kernel/csrc/include/fused_index_topk/long_cta_topk.cuh:166-252 | both build variants find the same K-th largest key of slots and spill together |
| CtaSelection.SelectionScratch.Decide | src/fused_index_topk/kernel/csrc/include/fused_index_topk/long_cta_topk.cuh:132-158 | a row fails exactly when a segment overflows slots plus spill or fewer than K were counted |
| CtaSelection.SelectionScratch.SelectRow | src/fused_index_topk/kernel/csrc/include/fused_index_topk/long_cta_topk.cuh:116-309 | short rows list their range; longer rows fail exactly as decided, then hold only -1, and otherwise receive an exact Top-k of the live candidates |
| CandidateEmission.EveryIdVisited | src/fused_index_topk/kernel/csrc/include/fused_index_topk/long_fused_topk.cuh:438-489 | the warp of a segment looks at every ID of that segment below the last tile |
| CandidateEmission.VisitFacts | src/fused_index_topk/kernel/csrc/include/fused_index_topk/long_fused_topk.cuh:438-489 | a warp meets only IDs of its own segment and each at one visit |
| CandidateEmission.LanesInOrder | src/fused_index_topk/kernel/csrc/include/fused_index_topk/long_fused_topk.cuh:482-510 | lanes 0 and 1 of the q-th reduction group hold tokens q and q + 8 of the tile, and counting the score lanes below a lane numbers these lanes in that order |
| CandidateEmission.EmittedIsSegment | src/fused_index_topk/kernel/csrc/include/fused_index_topk/long_fused_topk.cuh:490-532 | what a warp emits is exactly the passing pairs of its segment, once each |
| CandidateEmission.EmittedFits | src/fused_index_topk/kernel/csrc/repair/include/fused_index_topk/repair_producer.cuh:393-405 | a warp emits at most one pair per visit, so when its segment has a place for each of its visits it never overflows |
| FusedRow.StoreCandidate | src/fused_index_topk/kernel/csrc/include/fused_index_topk/long_fused_topk.cuh:511-527 | candidates fill the slots, then the spill, and are always counted; no other storage changes |
| FusedRow.OtherWarpStays | src/fused_index_topk/kernel/csrc/include/fused_index_topk/long_fused_topk.cuh:505-536 | a step of one warp changes neither what another warp has stored nor its count |
| FusedRow.ProduceCandidates | src/fused_index_topk/kernel/csrc/include/fused_index_topk/long_fused_topk.cuh:430-536 | in every interleaving of the eight warps, ID by ID, all segments end up holding their warps' lists with full counts |
| FusedRow.StoredEntryDecodes | src/fused_index_topk/kernel/csrc/include/fused_index_topk/long_cta_topk.cuh:60-81 | decoding a stored slot or spill entry gives back the emitted score and ID |
| FusedRow.AcceptanceIsFloorSuffices | src/fused_index_topk/kernel/csrc/include/fused_index_topk/long_cta_topk.cuh:124-164 | the counts accept a row exactly when each segment's passing candidates fit and at least k pass; then the live pairs are exactly the passing ones |
| FusedRow.FloorKeepsTopK | src/fused_index_topk/kernel/csrc/include/fused_index_topk/long_cta_topk.cuh:144-164 | a Top-k of at least k candidates above any floor is a Top-k of the whole range |
| FusedRow.PassingCounts | src/fused_index_topk/kernel/csrc/include/fused_index_topk/long_fused_topk.cuh:490-494 | as many candidates pass as range tokens score at least the floor |
| FusedRow.SegmentCounts | src/fused_index_topk/kernel/csrc/include/fused_index_topk/long_fused_topk.cuh:487-494 | as many candidates pass in segment g as range tokens with (id / 16) % 8 = g score at least the floor |
| FusedRow.FusedTopKRow | src/fused_index_topk/kernel/csrc/include/fused_index_topk/long_cta_topk.cuh:113-309 | a row of the fused kernel is exact, or flagged and all -1; it is flagged exactly when its range exceeds k and either fewer than k tokens score at least the floor or more of them share a group (id / 16) % 8 than its slots and spill hold |
| SlotHandoff.ArriveKeepsStep | src/fused_index_topk/kernel/csrc/include/fused_index_topk/long_fused_topk.cuh:194-197 | arriving once a phase keeps every thread within one arrival of the barrier's completed phases, and the last expected one completes the phase |
| SlotHandoff.FreeMeansEmptied | src/fused_index_topk/kernel/csrc/include/fused_index_topk/long_fused_topk.cuh:351-353 | the parity that a math thread waits for is past exactly when every selection thread has emptied the slot's previous use; the first use is admitted at once |
| SlotHandoff.ReadyMeansFilled | src/fused_index_topk/kernel/csrc/include/fused_index_topk/long_fused_topk.cuh:250-256 | the parity that a selection thread waits for is past exactly when every math thread has filled this use, and then none has gone on to the next |
| SlotHandoff.DrainMeansEmptied | src/fused_index_topk/kernel/csrc/include/fused_index_topk/long_fused_topk.cuh:661-662 | without overlap the second wait ends exactly when every selection thread has emptied the use just filled |
| SlotHandoff.Cta.BeginFill | src/fused_index_topk/kernel/csrc/include/fused_index_topk/long_fused_topk.cuh:338-355 | a math thread that is let in may overwrite its part: no reader of the slot is disturbed |
| SlotHandoff.Cta.FinishFill | src/fused_index_topk/kernel/csrc/include/fused_index_topk/long_fused_topk.cuh:656-662 | arriving publishes the thread's part of this block and nothing else |
| SlotHandoff.Cta.ReaderIsUndisturbed | src/fused_index_topk/kernel/csrc/include/fused_index_topk/long_fused_topk.cuh:75-76 | while a selection thread is at block i its slot holds exactly what every math thread made for block i and no math thread writes there; without overlap none writes anywhere |
| SlotHandoff.Cta.FinishRead | src/fused_index_topk/kernel/csrc/include/fused_index_topk/long_fused_topk.cuh:257-275 | giving the slot back keeps all threads in step |
| SlotHandoff.Cta.UnaheadMoves | src/fused_index_topk/kernel/csrc/include/fused_index_topk/long_fused_topk.cuh:351-353 | a math thread that is ahead of no selection thread is never held up |
| SlotHandoff.Cta.SomeoneCanMove | src/fused_index_topk/kernel/csrc/include/fused_index_topk/long_fused_topk.cuh:246-669 | until every thread has left its loop, some thread can take a step |
| SlotHandoff.RunCta | src/fused_index_topk/kernel/csrc/include/fused_index_topk/long_fused_topk.cuh:246-669 | whatever the interleaving, the threads all finish, and the i-th thing a selection thread has read from math thread t is what t made for block i, for all blocks |
| PairReducer.SelectTopKPairs | src/fused_index_topk/kernel/csrc/long_context_repair.cu:139-235 | the reducer outputs an exact Top-k of its input, offset applied, padded with zero pairs; the closing self-check never fires |
| PairReducer.SelfCheck | src/fused_index_topk/kernel/csrc/long_context_repair.cu:202-233 | the closing check is silent exactly when the counters agree with the total and the rank lies among the ties |
| HierarchicalRepair.ShiftedTopK | src/fused_index_topk/kernel/csrc/long_context_repair.cu:132-137 | adding a chunk's offset to every ID carries its Top-k along |
| HierarchicalRepair.FoldKeepsAccumulated | src/fused_index_topk/kernel/csrc/long_context_repair.cu:341-405 | merging a chunk's Top-k into the accumulator gives a Top-k of everything seen |
| HierarchicalRepair.RepairRow.constructor | src/fused_index_topk/kernel/plugin.py:224-236 | a row's slices are new storage of the sizes the kernels need; nothing is promised of their contents |
| HierarchicalRepair.RepairRow.LocalTopK | src/fused_index_topk/kernel/csrc/long_context_repair.cu:262-338 | unflagged rows are skipped; a flagged row records an error for inconsistent counts, otherwise reduces the gathered chunk |
| HierarchicalRepair.RepairRow.Merge | src/fused_index_topk/kernel/csrc/long_context_repair.cu:362-404 | flagged rows without error reduce accumulator and chunk in place; all others keep their accumulator |
| HierarchicalRepair.RepairRow.FinalizeRepair | src/fused_index_topk/kernel/csrc/long_context_repair.cu:407-426 | only a flagged, error-free row with a full accumulator is copied out and unflagged |
| HierarchicalRepair.RepairRow.RepairChunk | src/fused_index_topk/kernel/csrc/long_context_repair.cu:262-404 | the error flag stays exactly the record of an inconsistent chunk, and without one the accumulator is a Top-k of all pairs seen |
| HierarchicalRepair.RepairRow.FoldLocal | src/fused_index_topk/kernel/csrc/long_context_repair.cu:362-404 | merging one chunk in place extends the accumulated Top-k to the chunk's pairs, and touches nothing in unflagged or failed rows |
| HierarchicalRepair.RepairRow.RepairPublished | src/fused_index_topk/kernel/plugin.py:327-375 | whatever the chunks and the old workspaces hold, a row commits exactly when it was flagged, every chunk was consistent and enough pairs came; otherwise flag and output stay |
| HierarchicalRepair.AccumulatedRow | src/fused_index_topk/kernel/csrc/long_context_repair.cu:416-418 | the accumulator is full exactly when at least k pairs were seen, and is then an exact Top-k |
| ChunkRanges.UpdateChunkRanges | src/fused_index_topk/kernel/csrc/long_context_repair.cu:653-669 | every entry of the flat range tensors is its row's bound moved into its chunk and clamped to chunk and columns, never past the bound |
| ChunkRanges.ClampedBound | src/fused_index_topk/kernel/csrc/long_context_repair.cu:663-668 | a moved bound stays in its chunk and in the columns, never moves past the bound, and stops short of it only at the chunk's end or the last column |
| ChunkRanges.ChunkIsNextPiece | src/fused_index_topk/kernel/csrc/long_context_repair.cu:663-668 | a chunk's shifted interval is the next piece of the row's range |
| ChunkRanges.ChunksPartitionRange | src/fused_index_topk/kernel/csrc/long_context_repair.cu:653-669 | the shifted chunk intervals are disjoint, cover the range and nothing else, and their lengths add up to it |
| RepairProducer.ProduceChunk | src/fused_index_topk/kernel/csrc/repair/include/fused_index_topk/repair_producer.cuh:373-420 | a flagged row publishes every in-range pair of the chunk, split over sixteen segments; an unflagged row publishes zero counts when its partner is flagged and nothing otherwise |
| RepairProducer.RunWarps | src/fused_index_topk/kernel/csrc/repair/include/fused_index_topk/repair_producer.cuh:373-420 | in every interleaving of the sixteen warps, ID by ID, each segment publishes exactly its list, which always fits |
| RepairProducer.PublishedChunkIsRange | src/fused_index_topk/kernel/csrc/long_context_repair.cu:290-302 | what is published is always consistent, so the range and capacity error cannot arise, and the shifted pairs are exactly the chunk's piece of the row |
| FusedOperator.NextPiece | src/fused_index_topk/kernel/plugin.py:238-258 | the chunks of the prepared list extend the seen range by disjoint consecutive pieces |
| FusedOperator.PartnersPairUp | src/fused_index_topk/kernel/csrc/repair/include/fused_index_topk/repair_producer.cuh:268-290 | two different rows of a block of two are each other's partner |
| FusedOperator.LoadSchedule | src/fused_index_topk/kernel/csrc/include/fused_index_topk/long_fused_topk.cuh:222-233 | a block of rows is walked to the latest end among its rows and not a tile further |
| FusedOperator.RunFusedTopK | src/fused_index_topk/kernel/plugin.py:298-325 | for every number of rows a block, each row is exact or flagged and all -1, and flagged exactly when its range exceeds k and its floor lets too few through, or too many of one group |
| FusedOperator.FoldAllChunks | src/fused_index_topk/kernel/plugin.py:332-368 | after any number of chunks each flagged row has accumulated an exact Top-k of its range so far without error |
| FusedOperator.RunHierarchicalRepair | src/fused_index_topk/kernel/plugin.py:327-378 | flagged rows become exact and lose their flag; every other row's output is untouched |
| FusedOperator.RunOperator | src/fused_index_topk/kernel/plugin.py:298-380 | for every floor and any workspace contents all rows end unflagged and exact, and rows the fused kernel settled keep its output |
| FusedOperator.RunProductionOperator | src/fused_index_topk/kernel/plugin.py:31-39 | the same for the shipped sizes |
| FusedOperator.PrepareRows | src/fused_index_topk/kernel/plugin.py:206-236 | preparation allocates rows that share no storage with each other or with anything older |
| FusedOperator.PrepareAndRun | src/fused_index_topk/kernel/plugin.py:206-380 | with workspaces of its own, whatever they hold, the operator leaves every row unflagged and exact |
| FusedOperator.PrepareAndRunProduction | src/fused_index_topk/kernel/plugin.py:206-380 | the same for the shipped sizes and one or two rows a block |
| SampledThreshold.SelectedKeyIsScore | src/fused_index_topk/kernel/csrc/sampling_threshold.cu:111-177 | the selected key turned back into a float has exactly the requested rank among the counting samples |
| SampledThreshold.SelectRank | src/fused_index_topk/kernel/csrc/sampling_threshold.cu:119-176 | the rounds give up exactly when fewer than the requested number of samples count |
| SampledThreshold.SampledThresholdRadix | src/fused_index_topk/kernel/csrc/sampling_threshold.cu:83-178 | counting the samples i with start <= ids[i] < end and a finite score: minus infinity when the range is within the target or they are fewer than the rank, otherwise a finite number that fewer than rank of them exceed and at least rank of them reach |
| SampledThreshold.FloorAdmitsRank | src/fused_index_topk/kernel/csrc/sampling_threshold.cu:99-178 | with samples drawn without replacement a finite floor admits at least the requested number of in-range tokens |
| SampledThreshold.FullSampleIsExact | src/fused_index_topk/kernel/csrc/sampling_threshold.cu:83-178 | when the samples list every token of the range once, the floor is the rank-th largest logit of the range |
| SampledThreshold.SampledFloorAdmits | src/fused_index_topk/kernel/csrc/sampling_threshold.cu:99-178 | with distinct samples of rank at least k, at least k tokens of the range score at least the floor |
| SampledThreshold.NoFloorAdmitsAll | src/fused_index_topk/kernel/csrc/sampling_threshold.cu:102-105 | without a floor every finite in-range token is admitted |
| PrefillRun.RunGraph | src/fused_index_topk/kernel/plugin.py:260-380 | sampling, selecting and repairing any causal logits gives an output all of whose rows are exact |
| PrefillRun.PrepareAndRunGraph | src/fused_index_topk/kernel/plugin.py:176-380 | preparing and running the graph on any causal logits returns exact rows and writes to nothing of the caller's |
| PrefillRun.SampleAndSelect | src/fused_index_topk/kernel/plugin.py:260-325 | a row whose floor is sampled from distinct tokens at a rank of at least k is exact, or flagged and all -1; beyond k tokens it is flagged exactly when some group of IDs has more tokens scoring at least the floor than slots and spill |
| PrefillRun.AllExactTakeLargest | src/fused_index_topk/kernel/csrc/include/fused_index_topk/long_fused_topk.cuh:38-46 | exact rows list distinct positions up to their own, as many as fit, and no position left out has a larger logit as a number |
| PrefillRun.FiniteRowsHaveFiniteCutoffs | src/fused_index_topk/correctness.py:79-81 | with finite causal scores the finite-cutoff check never rejects |
| PrefillRun.ExactInNumbers | src/fused_index_topk/kernel/csrc/include/fused_index_topk/long_fused_topk.cuh:38-46 | exact over keys means that no selected logit is below an unselected causal one as a number |
| PrefillRun.JudgeRun | src/fused_index_topk/correctness.py:365-478 | an exact output passes the gate exactly when the reference output is itself exact, on both comparison paths |
| TensorOps.TopValues | src/fused_index_topk/correctness.py:72-78 | the n largest entries in descending order, none left out larger |
| TensorOps.CountAboveIsCardinality | src/fused_index_topk/correctness.py:98-99 | summing a comparison over gathered scores counts the IDs above the cutoff |
| TensorOps.SortComparesContents | src/fused_index_topk/correctness.py:433-435 | two rows sort alike exactly when they hold the same entries equally often |
| TensorOps.SortedRepeatsAreAdjacent | src/fused_index_topk/correctness.py:326-327 | an entry occurs twice exactly when it has an equal neighbour after sorting |
| OutputValidation.CheckRow | src/fused_index_topk/correctness.py:248-270 | accepts exactly the well-formed rows and otherwise names the first check that fails |
| OutputValidation.ValidatedSets | src/fused_index_topk/correctness.py:220-271 | accepts exactly the outputs whose row r lists min(topK, contextTokens - queryTokens + r + 1) distinct positions, none above contextTokens - queryTokens + r, padded with -1; returns the rows' ID sets, and otherwise reports the first bad row and what is wrong with it |
| OutputValidation.WellFormedLists | src/fused_index_topk/correctness.py:248-270 | the well-formed rows are exactly those that list as many distinct positions as fit, -1 elsewhere |
| OutputValidation.AllWellFormedLists | src/fused_index_topk/correctness.py:231-271 | the well-formed outputs are exactly those whose every row lists positions up to its own |
| OutputValidation.TensorRowMeaning | src/fused_index_topk/correctness.py:295-330 | the tensor checks accept a row exactly when it is well-formed, copies of the sentinel aside |
| OutputValidation.HiddenDuplicatePasses | src/fused_index_topk/correctness.py:324-330 | a concrete output with a duplicate ID that the tensor validator accepts, for every case where that is possible |
| OutputValidation.ValidatorsAgree | src/fused_index_topk/correctness.py:220-340 | the validators agree on all outputs of a case exactly when no row can hold the sentinel twice |
| OutputValidation.SortedComparison | src/fused_index_topk/correctness.py:420-436 | well-formed rows differ after normalizing and sorting exactly when their ID sets differ |
| ScoreOracle.TopValuesGiveCutoff | src/fused_index_topk/correctness.py:72-100 | the K-th top value is the K-th largest causal score, it equals the next one exactly when the cutoff is tied, and the count above it is exact |
| ScoreOracle.ExactMeansBetween | src/fused_index_topk/correctness.py:22-25 | with more than K tokens a well-formed row is exact exactly when it takes all IDs above the cutoff and none below it |
| ScoreOracle.ShortRowsTakeAll | src/fused_index_topk/correctness.py:51-53 | a well-formed row with at most K tokens takes them all and is exact |
| ScoreOracle.RowChecksMeanExact | src/fused_index_topk/correctness.py:88-106 | the below-cutoff and greater-count checks pass exactly for an exact row |
| ScoreOracle.TieChecksPass | src/fused_index_topk/correctness.py:121-143 | on an exact row with a tied cutoff none of the tie branch's own checks fires |
| ScoreOracle.TieDefects | src/fused_index_topk/correctness.py:130-143 | which of the four tie checks fires, for any sets; the third never does |
| ScoreOracle.TieChecksDecide | src/fused_index_topk/correctness.py:121-143 | on a tied row that takes nothing below the cutoff the tie checks are silent exactly when the row is exact |
| ScoreOracle.ExactTakesBest | src/fused_index_topk/correctness.py:22-25 | a row is exact exactly when it lists as many distinct positions as fit and leaves out none with a larger score |
| ScoreOracle.ChecksFind | src/fused_index_topk/correctness.py:88-106 | the two vectorized checks fire exactly when a taken position has K positions scoring more, and when one left out has fewer than K scoring as much |
| ScoreOracle.OracleKeepsTies | src/fused_index_topk/correctness.py:108-150 | what is kept for a row is its positions at the K-th score with the number still needed, and only if not all are needed |
| ScoreOracle.BuildScoreThresholdOracle | src/fused_index_topk/correctness.py:15-173 | accepts exactly the baselines whose rows take the best positions up to their own, with finite cutoffs, and keeps exactly the tied boundaries; says exactly when each of the five errors that can occur is reported, and that the other five never are |
| ScoreOracle.CompareTopKIndices | src/fused_index_topk/correctness.py:365-478 | accepts exactly when both outputs list positions up to each row's own and each row has the baseline's IDs or is an allowed substitution; names a malformed candidate first, then a malformed baseline, then the first failing row; otherwise reports which rows were substituted |
| ScoreOracle.SubstitutionRule | src/fused_index_topk/correctness.py:393-400 | the three substitution conditions together say that the set lies between the mandatory IDs and the boundary |
| ScoreOracle.UntiedIsUnique | src/fused_index_topk/correctness.py:386-392 | without a cutoff tie there is only one exact set, so any difference is an error |
| ScoreOracle.ComparisonDecidesExactness | src/fused_index_topk/correctness.py:381-407 | against an accepted baseline a row passes exactly when it is exact |
| ScoreOracle.JudgeCandidate | src/fused_index_topk/correctness.py:15-478 | the oracle is built exactly for a usable baseline, and then the candidate passes exactly when each row r lists the best min(topK, contextTokens - queryTokens + r + 1) of the positions up to contextTokens - queryTokens + r |
| SafeIds.StarOfClass | src/fused_index_topk/graph.py:14 | repeating a character class matches exactly the texts made of its characters |
| SafeIds.SafeIdIsPattern | src/fused_index_topk/graph.py:14 | the ID check decides the language of the pattern, as a regular expression with its own matching relation |
| StageGraph.SameStagesSameDependencies | src/fused_index_topk/graph.py:18-29 | listing the stages in another order changes nothing |
| StageGraph.GreedyRespects | src/fused_index_topk/graph.py:31-40 | the greedy order lists no stage twice and each after its dependencies |
| StageGraph.GreedySmallestIsUnique | src/fused_index_topk/graph.py:31-40 | only one order takes the smallest ready stage at every step until none is ready |
| StageGraph.OrderIgnoresListing | src/fused_index_topk/graph.py:18-43 | the result is that order, however the stages are listed |
| StageGraph.GreedyCompleteIffAcyclic | src/fused_index_topk/graph.py:41-42 | the order lists every stage exactly when the dependencies have no cycle |
| StageGraph.WalkClosesCycle | src/fused_index_topk/graph.py:41-42 | stages that wait only for one another contain a cycle |
| StageGraph.CompleteIsAcyclic | src/fused_index_topk/graph.py:41-42 | an order that lists every stage after its dependencies leaves no room for a cycle |
| TopologicalOrder.TallyAll | src/fused_index_topk/graph.py:19-29 | reports a dependency on a missing stage exactly when there is one, and one that is missing; otherwise indegrees and child lists match the dependencies, duplicates and repeated stage names counted |
| TopologicalOrder.ReadyListIsReady | src/fused_index_topk/graph.py:31-35 | the ready list holds exactly the stages whose dependencies are all listed, smallest first |
| TopologicalOrder.PayChildren | src/fused_index_topk/graph.py:36-40 | decrementing the children keeps indegrees equal to open dependencies and the ready list sorted and complete |
| TopologicalOrder.ListNames | src/fused_index_topk/graph.py:31-40 | the loop terminates and lists exactly the greedy order |
| TopologicalOrder.TopologicalNodes | src/fused_index_topk/graph.py:18-43 | succeeds exactly when every dependency exists and there is no cycle, with the stages in greedy order; a name listed twice stands for its last stage and pools the dependencies |
| GraphValidation.AncestorsUnfold | src/fused_index_topk/graph.py:57-64 | a stage's dependencies and their ancestors are exactly what it can reach |
| GraphValidation.AncestorsComeFirst | src/fused_index_topk/graph.py:57-64 | whatever a stage reaches stands earlier in any dependency-respecting order |
| GraphValidation.ComputeAncestors | src/fused_index_topk/graph.py:57-64 | the computed sets are exactly the reachable stages |
| GraphValidation.ClaimAll | src/fused_index_topk/graph.py:66-72 | accepts exactly when no artifact is produced twice or initially present, and maps each to its stage |
| GraphValidation.ConsumedArtifact | src/fused_index_topk/graph.py:80-95 | an input is available and related exactly when it is initial or made by an ancestor |
| GraphValidation.CheckFlow | src/fused_index_topk/graph.py:74-101 | accepts exactly when every stage's inputs come from the start or its ancestors and its operations are known; the executability re-check never fires |
| GraphValidation.StageFaultExplains | src/fused_index_topk/graph.py:74-101 | the fault reported for a stage is the first of: an input that no earlier stage makes, one made outside its ancestors, an unknown operation |
| GraphValidation.CoversMeans | src/fused_index_topk/graph.py:104-116 | the closure covers an operation exactly when the terminal stage or an ancestor performs it |
| GraphValidation.DeadMeans | src/fused_index_topk/graph.py:117-126 | a dead stage is found exactly when some indexing or selecting stage does not contribute to the terminal one |
| GraphValidation.CheckTerminal | src/fused_index_topk/graph.py:102-126 | accepts exactly when the terminal artifact is produced, its closure indexes and selects, and nothing outside it does |
| GraphValidation.ValidateGraph | src/fused_index_topk/graph.py:46-127 | accepts exactly the valid graphs whose IDs match the pattern, with their stages in greedy order; otherwise the error is that of the first check that fails, and what it reports is the case |
| GraphExecution.StoreContents | src/fused_index_topk/graph.py:187-204 | after each stage the store holds, of the artifacts the graph names, the initial ones and what the stages so far make, so no stage reads a missing one |
| GraphExecution.RunnableIsPlan | src/fused_index_topk/graph.py:74-101 | in any schedule of a valid graph each stage finds its inputs at its turn and makes only new artifacts |
| GraphExecution.FinalStoreIsFixed | src/fused_index_topk/graph.py:187-204 | in the final store each stage's outputs are what it makes of that same store |
| GraphExecution.ScheduleHasOutcome | src/fused_index_topk/graph.py:172-204 | every schedule ends with the initial artifacts as they were and with all declared artifacts, each as its stage makes it of that final store |
| GraphExecution.OutcomeIsUnique | src/fused_index_topk/graph.py:172-204 | two stores that are such an outcome hold the same value under every name the graph uses |
| GraphExecution.SchedulesAgree | src/fused_index_topk/graph.py:172-204 | all dependency-respecting orders of a valid graph end with every artifact of the graph present and of the same value, even if stages leave undeclared ones |
| GraphExecution.ExecutePrevalidated | src/fused_index_topk/graph.py:172-204 | runs the stages in turn and, when asked, stops at the first one that leaves a declared artifact out |
| GraphExecution.ExecuteGraph | src/fused_index_topk/graph.py:154-169 | a graph of honest stages runs to the end exactly when it is valid and its IDs match the pattern, with its one outcome, the terminal artifact included, as every other schedule |
| ShippedGraph.ChainIsGreedy | src/fused_index_topk/graph.py:31-43 | stages that each depend on the one before are listed in that order, and there is no cycle |
| ShippedGraph.ShippedIsValid | src/fused_index_topk/kernel/plugin.py:383-457 | the plugin's own graph is valid, its IDs match the pattern, and its greedy order is that of its list |
| ShippedGraph.ValidateShipped | src/fused_index_topk/kernel/plugin.py:383-457 | validation returns gather, indexer, threshold, fused selection and repair, in that order |
| BalancedPacking.PositionIsInverse | src/fused_index_topk/real_corpus.py:66-76 | rotating the domains by the offset visits each domain at one position of every round |
| BalancedPacking.OrderIsRotatedList | src/fused_index_topk/real_corpus.py:66 | the domain of a visit is the entry of the rotated list at the visit modulo its length |
| BalancedPacking.TakenIsBalanced | src/fused_index_topk/real_corpus.py:75-87 | until a pool is found empty two domains are at most one document apart; later only a domain that has run out is further behind |
| BalancedPacking.ScheduleTakesPrefixes | src/fused_index_topk/real_corpus.py:75-87 | each domain contributes a prefix of its pool in order |
| BalancedPacking.VisitTakesNext | src/fused_index_topk/real_corpus.py:76-87 | visit c pops the (c / n)-th document of its domain, or finds the pool empty exactly when there is none |
| BalancedPacking.BooksStep | src/fused_index_topk/real_corpus.py:88-110 | packing a document whole, cut, or as a lone end marker keeps token counts, records and what is still needed in balance |
| BalancedPacking.EntriesInOutput | src/fused_index_topk/real_corpus.py:86-96 | each packed document stands in the output where the uses before it end: start marker, the first used - 2 tokens of its text, end marker, or a lone end marker |
| BalancedPacking.UsedByCountsPositions | src/fused_index_topk/real_corpus.py:97-110 | the count of a domain is the number of output positions that its documents take |
| BalancedPacking.LengthDecidesLast | src/fused_index_topk/real_corpus.py:86-95 | the last document goes in whole exactly when the length is a boundary of the schedule, and is popped without a record exactly one past a boundary |
| BalancedPacking.BoundariesAtLast | src/fused_index_topk/real_corpus.py:75-95 | no boundary falls strictly inside a scheduled document |
| BalancedPacking.CutDocument | src/fused_index_topk/real_corpus.py:62-93 | three tokens from two documents that need four each: a document is cut, whatever the visits |
| BalancedPacking.UnrecordedDocument | src/fused_index_topk/real_corpus.py:86-91 | five tokens from two documents that need four each: the second is consumed and not recorded |
| BalancedPacking.AllVisitedEmpty | src/fused_index_topk/real_corpus.py:79-85 | as many empty visits in a row as there are domains mean that every pool is empty |
| BalancedPacking.PackLoop | src/fused_index_topk/real_corpus.py:70-110 | the loop terminates, keeps the books, and stops short only with every pool empty |
| BalancedPacking.DocumentPools.PackBalancedDocuments | src/fused_index_topk/real_corpus.py:54-113 | succeeds exactly when the pools hold enough tokens; the output has the requested length and is the scheduled documents one after another, each with its markers around a prefix of its text; a domain's count is the number of its positions, and the pools lose a prefix each; all documents are whole exactly at a boundary, and one past a boundary a document goes unrecorded |
| BalancedPacking.ValidateDocumentDisjointness | src/fused_index_topk/real_corpus.py:116-140 | accepts exactly the pairwise disjoint splits, and then the total is the sum of the per-split counts |
| CaseLifecycle.CreateFixtures | src/fused_index_topk/lifecycle.py:102-132 | a case is created exactly when the two fixtures differ |
| CaseLifecycle.Lifecycle.VerifyInputIntegrity | src/fused_index_topk/lifecycle.py:154-176 | passes exactly when no fixture was written to, and only then appends its record |
| CaseLifecycle.Lifecycle.BuildOracles | src/fused_index_topk/lifecycle.py:240-291 | succeeds exactly when the reference writes to nothing and its runs on A, as iteration 0, and then on B, as iteration 1, are accepted |
| CaseLifecycle.Lifecycle.PrepareCandidate | src/fused_index_topk/lifecycle.py:293-307 | needs an oracle, a supported plugin and untouched fixtures, and prepares on fixture A only |
| CaseLifecycle.Lifecycle.ValidateOutputs | src/fused_index_topk/lifecycle.py:349-373 | with a correct oracle an output passes exactly when it is exact for that fixture's scores; the error says whether the candidate, the fixture's oracle or the output is at fault |
| CaseLifecycle.JudgeRows | src/fused_index_topk/lifecycle.py:349-373 | against an oracle that fits the scores, rows are accepted exactly when they are exact |
| CaseLifecycle.Lifecycle.CheckCandidate | src/fused_index_topk/lifecycle.py:309-347 | with both oracles in place, passes exactly when nothing was ever written to a fixture and each of its runs, with its own iteration number and after all earlier runs, is exact for its fixture's original content |
| CaseLifecycle.PrecomputedResultMustFitBoth | src/fused_index_topk/lifecycle.py:67-74 | a case whose graph ignores its input passes only with rows that are exact for both fixtures, so never when there are none |
| CaseLifecycle.ReplayMustFitEveryB | src/fused_index_topk/lifecycle.py:67-74 | a graph whose rows depend on preparation, iteration and earlier runs but not on the content it is reading cannot pass with two fixtures B that have no exact rows in common |
| CaseLifecycle.SeparatedFixtures | src/fused_index_topk/lifecycle.py:67-74 | one token above the cutoff of a row on one fixture and below it on the other keeps the fixtures from having exact rows in common |
| CaseLifecycle.RunCase | src/fused_index_topk/lifecycle.py:102-347 | a whole case, checked in any order from any iteration, passes exactly when the fixtures differ, the reference is usable, the candidate writes to nothing and each of its runs is exact; without common exact rows every graph that ignores its input is rejected |

## Left out

- Score production: the FP8 matrix product, TMA, the Q and KV staging rings and tensor-core tiles. Scores are an arbitrary function of the row and the ID; the producers are modelled from the point where a lane holds its score.
- NaN scores and floors: the code relies on there being none, so the row, floor and oracle preconditions exclude them and nothing else (`FloatKeys.NumericScores`, `ScoreOracle.CausalScores`); NaN samples are modelled, since the sampler filters them.
- Emission.Emit: does not keep the program order of one warp's successive batches; any order of all batches is allowed, which covers the real runs and more.
- SlotHandoff.RunCta: the candidate slots only, with each thread's part written and read as one value; the staging rings of Q and KV in the same kernel, and the waits of all three rings together, are not composed. `FusedOperator` takes each row's production and selection as one piece, which is what the hand-over allows.
- The GPU memory model below barriers and atomic adds, and lanes of one warp apart from lockstep.
- The generic 64-bit `CandidateStorage` and the build switches other than the two scan variants; the diagnostic clock and trace writes.
- SampledThreshold.FloorAdmitsRank: says nothing about how good the sampled floor is; the rank guard in `kernel/sampling.py` is probabilistic and exactness does not rest on it. `PrefillRun` takes the sampled scores from the row's own logits.
- In-place sharing between graph stages: the plugin's `fast_indices` and `fast_failure_flags` artifacts alias the tensors that the repair stage later rewrites. `FusedOperator` models that rewriting on the rows themselves; the stage-graph results assume stages that, among the names the graph uses, write only what they declare. Undeclared artifacts under other names, such as `phase_trace` and `spill_pairs`, are allowed.
- OutputValidation.ValidatedSets: tensor metadata (dtype, contiguity, device, materialized list types) is not modelled, nor the causal flag.
- ScoreOracle.BuildScoreThresholdOracle: margins are compared as keys instead of subtracted, which is the same under gradual underflow; the summary numbers it reports are not modelled. It asks for scores of minus infinity past the causal end and for a case in which the tensor validator is reliable.
- ScoreOracle.CompareTopKIndices: an absent oracle is the empty one, which decides alike; message texts are not modelled.
- Graph serialization and fingerprint. Stage names are numbers ordered as their texts; `GraphValidation.Spelling` gives the text that the ID pattern is checked on.
- BalancedPacking.DocumentPools.PackBalancedDocuments: documents are handles with their tokens; the recorded metadata and hashes are not modelled, nor is the split by hash bucket. The pools are assigned once at the end instead of popped one by one.
- CaseLifecycle.Lifecycle.Execute: a graph writes only to the fixture it runs on, and every write raises the version counter; a write that bypasses the counter and is undone before the next digest is outside the model. Digests stand for the content and exceptions end the run. A graph's rows and writes may depend on all of its own runs, but not on those of another graph. `CheckCandidate` allows any earlier runs, but the warm-up loop that makes some is not modelled, nor are metadata and the structural graph check inside preparation.
- Launch code, tensor checks, JIT builds, shared-memory sizing, benchmarking, profiling, campaigns, configuration, artifacts and the command line: plumbing and long field checks that would add only easy members.
