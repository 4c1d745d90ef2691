/** The complete operator: the fused kernel over all rows, then the device-masked repair of
    the flagged ones, chunk by chunk over shared per-row workspaces. */
module FusedOperator {
  import opened Arithmetic
  import opened Exactness
  import opened FloatKeys
  import opened CandidateEmission
  import opened CtaSelection
  import opened FusedRow
  import opened ChunkRanges
  import opened HierarchicalRepair
  import opened RepairProducer

  const MAX_CONTEXT: nat := 163840

  /** One query row: its score keys, causal range and sampled floor. Infinities are allowed
      anywhere, NaNs nowhere. */
  datatype RowInput = RowInput(key: nat -> nat, start: nat, end: nat, floor: nat) {
    ghost predicate Valid(columns: nat) {
      NumericScores(key) && IsNumberKey(floor) && start <= end <= columns
    }
  }

  ghost predicate RowsValid(rows: seq<RepairRow>, inputs: seq<RowInput>, cap: nat, columns: nat, k: nat) {
    && |rows| == |inputs| && |rows| % 2 == 0 && columns <= MAX_CONTEXT
    && cap > 0 && cap % TILE_LANES == 0 && k > 0
    && (forall r :: 0 <= r < |rows| ==> rows[r].Valid(k) && rows[r].segmentCapacity == cap && inputs[r].Valid(columns))
    && forall r, q :: 0 <= r < |rows| && 0 <= q < |rows| && r != q ==> rows[r].Apart(rows[q])
  }

  /** The other row of a two-row repair launch. */
  function Partner(r: nat): nat {
    if r % 2 == 0 then r + 1 else r - 1
  }

  /** Rows are launched in pairs of neighbours, the even one first. */
  lemma PartnersPairUp(r: nat)
    ensures Partner(Partner(r)) == r && Partner(r) != r && Partner(r) / 2 == r / 2
  {
  }

  /** Enough 256-column tiles for the later end of a row pair. */
  function RepairTiles(hi: nat, partnerHi: nat): (tiles: nat)
    ensures hi <= tiles * (TILE_LANES * REPAIR_SEGMENTS) && partnerHi <= tiles * (TILE_LANES * REPAIR_SEGMENTS)
    ensures tiles == 0 || (tiles - 1) * (TILE_LANES * REPAIR_SEGMENTS) < Max(hi, partnerHi)
  {
    (Max(hi, partnerHi) + 255) / 256
  }

  lemma TilesFit(hi: nat, partnerHi: nat, cap: nat)
    requires cap % TILE_LANES == 0 && Max(hi, partnerHi) <= REPAIR_SEGMENTS * cap
    ensures RepairTiles(hi, partnerHi) * TILE_LANES <= cap
  {
    var groups := cap / TILE_LANES;
    assert cap == groups * TILE_LANES;
  }

  /** What a row has seen before chunk `c`. */
  ghost function SeenBefore(input: RowInput, c: nat, width: nat): set<Pair>
    requires input.start <= input.end
  {
    if c == 0 then {} else RangePairs(input.key, input.start, SeenEnd(input.start, input.end, c, width))
  }

  /** Neighbouring ranges are disjoint and join to one. */
  lemma JoinRanges(key: nat -> nat, lo: nat, mid: nat, hi: nat)
    requires lo <= mid <= hi
    ensures RangePairs(key, lo, mid) !! RangePairs(key, mid, hi)
    ensures RangePairs(key, lo, mid) + RangePairs(key, mid, hi) == RangePairs(key, lo, hi)
  {
  }

  /** Empty ranges hold the same pairs, wherever they start. */
  lemma SameRange(key: nat -> nat, lo: nat, hi: nat, lo': nat, hi': nat)
    requires lo <= hi && hi - lo == hi' - lo' && (lo < hi ==> lo == lo')
    ensures RangePairs(key, lo, hi) == RangePairs(key, lo', hi')
  {
  }

  /** The range seen so far grows by exactly the chunk's piece. */
  lemma NextPiece(input: RowInput, columns: nat, c: nat, width: nat)
    requires input.start <= input.end <= columns && c * width <= columns
    ensures
      var lo, hi := ChunkBound(input.start, c, width, columns), ChunkBound(input.end, c, width, columns);
      0 <= lo <= hi && c * width + hi <= columns &&
      SeenBefore(input, c, width) !! RangePairs(input.key, c * width + lo, c * width + hi) &&
      SeenBefore(input, c, width) + RangePairs(input.key, c * width + lo, c * width + hi) ==
        SeenBefore(input, c + 1, width)
  {
    ChunkIsNextPiece(input.start, input.end, columns, c, width);
    var lo, hi := ChunkBound(input.start, c, width, columns), ChunkBound(input.end, c, width, columns);
    var from, to := SeenEnd(input.start, input.end, c, width), SeenEnd(input.start, input.end, c + 1, width);
    if lo < hi {
      assert InChunk(input.start, input.end, columns, width, c, c * width + lo);
      assert InChunk(input.start, input.end, columns, width, c, from);
    }
    SameRange(input.key, c * width + lo, c * width + hi, from, to);
    JoinRanges(input.key, input.start, from, to);
    assert c == 0 ==> RangePairs(input.key, input.start, from) == {};
  }

  /** A flagged row's published chunk satisfies everything the reducer asks, and folding it
      in reaches the next piece of the range. */
  lemma PublishedChunkFolds(
      view: ChunkView, cap: nat, input: RowInput, columns: nat, c: nat, width: nat, offset: nat, lo: nat, hi: nat,
      tiles: nat)
    requires |view.counts| == REPAIR_SEGMENTS && |view.pairs| == REPAIR_SEGMENTS * cap
    requires width == REPAIR_SEGMENTS * cap && offset == c * width <= columns
    requires input.Valid(columns) && columns <= MAX_CONTEXT
    requires lo == ChunkBound(input.start, c, width, columns)
    requires hi == ChunkBound(input.end, c, width, columns) && hi <= tiles * (TILE_LANES * REPAIR_SEGMENTS)
    requires forall s :: 0 <= s < REPAIR_SEGMENTS ==>
      SegmentPublished(view, cap, ChunkKey(input.key, offset), ChunkFilter(lo, hi), tiles, s)
    ensures Consistent(view.counts, cap, lo, hi)
    ensures ChunkPairs(Gathered(view.pairs, view.counts, cap, REPAIR_SEGMENTS), offset, SeenBefore(input, c, width))
    ensures
      var list := ShiftList(Gathered(view.pairs, view.counts, cap, REPAIR_SEGMENTS), offset);
      SeenBefore(input, c, width) + Members(list) == SeenBefore(input, c + 1, width)
  {
    NextPiece(input, columns, c, width);
    PublishedChunkIsRange(view, cap, input.key, offset, lo, hi, tiles);
  }

  /** What the fold of one row depends on between chunks. */
  datatype FoldState = FoldState(failure: nat, error: nat, count: nat, acc: seq<Pair>)

  /** A row's fold state before chunk `c`: nothing is claimed of an unflagged row, and a
      flagged row has accumulated an exact Top-k of its range so far, without an error. */
  ghost predicate StateFoldedTo(s: FoldState, input: RowInput, cap: nat, k: nat, c: nat)
    requires input.start <= input.end
  {
    c > 0 && s.failure != 0 ==>
      s.error == 0 && Accumulated(s.acc, s.count, SeenBefore(input, c, REPAIR_SEGMENTS * cap), k)
  }

  ghost function StateOf(row: RepairRow): FoldState
    reads row, row.accumulatorPairs
  {
    FoldState(row.failure, row.error, row.accumulatorCount, row.accumulatorPairs[..])
  }

  /** One chunk of one row: what a flagged row publishes is consistent and the next piece of
      its range. */
  method PublishChunk(
      row: RepairRow, partnerFlagged: bool, input: RowInput, ghost columns: nat, c: nat, lo: nat, hi: nat,
      partnerHi: nat,
      offset: nat, ghost width: nat)
    returns (ghost list: seq<Pair>)
    requires row.candidatePairs.Length == REPAIR_SEGMENTS * row.segmentCapacity
    requires row.segmentCounts.Length == REPAIR_SEGMENTS && row.segmentCapacity % TILE_LANES == 0
    requires input.Valid(columns) && columns <= MAX_CONTEXT
    requires width == REPAIR_SEGMENTS * row.segmentCapacity && offset == c * width <= columns
    requires lo == ChunkBound(input.start, c, width, columns) && hi == ChunkBound(input.end, c, width, columns)
    requires Max(hi, partnerHi) <= width
    modifies row.candidatePairs, row.segmentCounts
    ensures row.failure != 0 ==>
      && Consistent(row.segmentCounts[..], row.segmentCapacity, lo, hi)
      && list == Gathered(row.candidatePairs[..], row.segmentCounts[..], row.segmentCapacity, REPAIR_SEGMENTS)
      && ChunkPairs(list, offset, SeenBefore(input, c, width))
      && SeenBefore(input, c, width) + Members(ShiftList(list, offset)) == SeenBefore(input, c + 1, width)
  {
    TilesFit(hi, partnerHi, row.segmentCapacity);
    var tiles := RepairTiles(hi, partnerHi);
    ProduceChunk(row, partnerFlagged, ChunkKey(input.key, offset), ChunkFilter(lo, hi), tiles);
    list := [];
    if row.failure != 0 {
      PublishedChunkFolds(RepairProducer.ViewOf(row), row.segmentCapacity, input, columns, c, width, offset, lo, hi,
                          tiles);
      list := Gathered(row.candidatePairs[..], row.segmentCounts[..], row.segmentCapacity, REPAIR_SEGMENTS);
    }
  }

  /** One chunk of one row: publish, reduce, fold. */
  method RepairRowChunk(
      row: RepairRow, partnerFlagged: bool, input: RowInput, ghost columns: nat, k: nat, c: nat,
      lo: nat, hi: nat, partnerHi: nat)
    requires row.Valid(k) && input.Valid(columns) && columns <= MAX_CONTEXT
    requires row.segmentCapacity > 0 && row.segmentCapacity % TILE_LANES == 0
    requires c * (REPAIR_SEGMENTS * row.segmentCapacity) <= columns
    requires lo == ChunkBound(input.start, c, REPAIR_SEGMENTS * row.segmentCapacity, columns)
    requires hi == ChunkBound(input.end, c, REPAIR_SEGMENTS * row.segmentCapacity, columns)
    requires Max(hi, partnerHi) <= REPAIR_SEGMENTS * row.segmentCapacity
    requires StateFoldedTo(StateOf(row), input, row.segmentCapacity, k, c)
    modifies row`error, row`localCount, row`accumulatorCount
    modifies row.candidatePairs, row.segmentCounts, row.localPairs, row.accumulatorPairs, row.histogram
    ensures StateFoldedTo(StateOf(row), input, row.segmentCapacity, k, c + 1)
  {
    ghost var width := REPAIR_SEGMENTS * row.segmentCapacity;
    var offset := c * (REPAIR_SEGMENTS * row.segmentCapacity);
    ghost var list := PublishChunk(row, partnerFlagged, input, columns, c, lo, hi, partnerHi, offset, width);
    row.RepairChunk(k, lo, hi, offset, c == 0, list, SeenBefore(input, c, width), true);
  }

  // ---------- all rows ----------

  /** The fused kernel's verdict on one row: exact, or flagged and filled with -1; flagged
      exactly when the range exceeds k and the floor does not suffice. */
  ghost predicate FastOutcome(
      failure: nat, output: seq<int>, input: RowInput, segmentCapacity: nat, spillCapacity: nat, k: nat)
  {
    var f := Filter(input.start, input.end, input.floor);
    && (failure == 0 <==>
          Max(0, input.end - input.start) <= k || FloorSuffices(input.key, f, segmentCapacity, spillCapacity, k))
    && (failure == 0 ==> IsExactRow(input.key, output, input.start, input.end, k))
    && (failure != 0 ==> failure == 1 && output == seq(k, j => -1))
  }

  /** The block of a row starts at a multiple of the block size and lies inside the rows. */
  lemma BlockFits(rows: nat, blockQ: nat, r: nat)
    requires blockQ > 0 && rows % blockQ == 0 && r < rows
    ensures r / blockQ * blockQ <= r < r / blockQ * blockQ + blockQ <= rows
  {
    var block, blocks := r / blockQ, rows / blockQ;
    assert rows == blocks * blockQ && r == block * blockQ + r % blockQ;
    if block >= blocks {
      if block > blocks { ScaledStep(blocks, block, blockQ); }
    } else {
      ScaledStep(block, blocks, blockQ);
    }
  }

  /** The 128-column tiles of a block of rows starting at `first`: enough for the latest end
      among them, and no more. */
  method LoadSchedule(inputs: seq<RowInput>, columns: nat, first: nat, blockQ: nat) returns (tiles: nat)
    requires first + blockQ <= |inputs|
    ensures forall r :: first <= r < first + blockQ ==> Min(inputs[r].end, columns) <= tiles * 128
    ensures tiles > 0 ==> exists r :: first <= r < first + blockQ && (tiles - 1) * 128 < Min(inputs[r].end, columns)
  {
    var end: nat := 0;
    for i := 0 to blockQ
      invariant forall r :: first <= r < first + i ==> Min(inputs[r].end, columns) <= end
      invariant end > 0 ==> exists r :: first <= r < first + i && end == Min(inputs[r].end, columns)
    {
      end := Max(end, Min(inputs[first + i].end, columns));
    }
    tiles := (end + 127) / 128;
  }

  /** One row of the fused kernel, over the tiles of its whole block. The CTA's scratch comes
      with whatever an earlier row left in it: a new object's arrays hold arbitrary values. */
  method FastRow(
      row: RepairRow, input: RowInput, columns: nat, tiles: nat,
      segmentCapacity: nat, spillCapacity: nat, k: nat, segmented: bool)
    requires row.Valid(k) && input.Valid(columns) && columns <= MAX_CONTEXT && segmentCapacity > 0
    requires Min(input.end, columns) <= tiles * 128
    modifies row`failure, row.output
    ensures FastOutcome(row.failure, row.output[..], input, segmentCapacity, spillCapacity, k)
  {
    var scratch := new SelectionScratch(segmentCapacity, spillCapacity);
    var f := Filter(Min(input.start, columns), Min(input.end, columns), input.floor);
    var failure := FusedTopKRow(scratch, input.key, f, tiles, k, segmented, row.output);
    row.failure := failure;
  }

  /** How far the block of row `r` is walked. */
  method TilesOfBlock(inputs: seq<RowInput>, columns: nat, blockQ: nat, r: nat) returns (tiles: nat)
    requires blockQ > 0 && |inputs| % blockQ == 0 && r < |inputs|
    ensures Min(inputs[r].end, columns) <= tiles * 128
  {
    BlockFits(|inputs|, blockQ, r);
    tiles := LoadSchedule(inputs, columns, r / blockQ * blockQ, blockQ);
  }

  /** The fused kernel on row `r`; no other row changes. */
  method FastRowAmong(
      rows: seq<RepairRow>, inputs: seq<RowInput>, ghost cap: nat, columns: nat, tiles: nat,
      segmentCapacity: nat, spillCapacity: nat, k: nat, segmented: bool, r: nat, row: RepairRow)
    requires RowsValid(rows, inputs, cap, columns, k) && segmentCapacity > 0
    requires r < |rows| && row == rows[r] && Min(inputs[r].end, columns) <= tiles * 128
    modifies row`failure, row.output
    ensures FastOutcome(row.failure, row.output[..], inputs[r], segmentCapacity, spillCapacity, k)
    ensures forall q :: 0 <= q < |rows| && q != r ==>
      rows[q].failure == old(rows[q].failure) && rows[q].output[..] == old(rows[q].output[..])
  {
    FastRow(row, inputs[r], columns, tiles, segmentCapacity, spillCapacity, k, segmented);
  }

  /** The fused kernel over all rows, `blockQ` rows a block. */
  method RunFusedTopK(
      rows: seq<RepairRow>, inputs: seq<RowInput>, ghost cap: nat, columns: nat, blockQ: nat,
      segmentCapacity: nat, spillCapacity: nat, k: nat, segmented: bool)
    returns (ghost flags: seq<nat>, ghost outs: seq<seq<int>>)
    requires RowsValid(rows, inputs, cap, columns, k) && segmentCapacity > 0
    requires blockQ > 0 && |rows| % blockQ == 0
    modifies (set row | row in rows)`failure, set row | row in rows :: row.output
    ensures |flags| == |outs| == |rows|
    ensures forall r :: 0 <= r < |rows| ==> rows[r].failure == flags[r] && rows[r].output[..] == outs[r]
    ensures forall r :: 0 <= r < |rows| ==> FastOutcome(flags[r], outs[r], inputs[r], segmentCapacity, spillCapacity, k)
  {
    flags, outs := [], [];
    for r := 0 to |rows|
      invariant |flags| == |outs| == r
      invariant forall q :: 0 <= q < r ==> rows[q].failure == flags[q] && rows[q].output[..] == outs[q]
      invariant forall q :: 0 <= q < r ==> FastOutcome(flags[q], outs[q], inputs[q], segmentCapacity, spillCapacity, k)
    {
      var row := rows[r];
      assert row in rows;
      var tiles := TilesOfBlock(inputs, columns, blockQ, r);
      FastRowAmong(rows, inputs, cap, columns, tiles, segmentCapacity, spillCapacity, k, segmented, r, row);
      flags, outs := flags + [row.failure], outs + [row.output[..]];
    }
  }

  /** The bounds of a chunk are proper positions inside it. */
  lemma BoundsFit(input: RowInput, columns: nat, c: nat, width: nat)
    requires input.Valid(columns) && c * width <= columns
    ensures 0 <= ChunkBound(input.start, c, width, columns) <= ChunkBound(input.end, c, width, columns) <= width
  {
    ChunkIsNextPiece(input.start, input.end, columns, c, width);
  }

  /** Fold chunk `c` into row `r`; no other row's state changes. */
  method RepairOneRow(
      rows: seq<RepairRow>, inputs: seq<RowInput>, ghost cap: nat, columns: nat, k: nat, c: nat, ghost width: nat,
      lo: int, hi: int, partnerHi: int, r: nat, row: RepairRow)
    requires RowsValid(rows, inputs, cap, columns, k) && width == REPAIR_SEGMENTS * cap && c * width <= columns
    requires r < |rows| && Partner(r) < |rows| && row == rows[r]
    requires lo == ChunkBound(inputs[r].start, c, width, columns) && hi == ChunkBound(inputs[r].end, c, width, columns)
    requires partnerHi == ChunkBound(inputs[Partner(r)].end, c, width, columns)
    requires StateFoldedTo(StateOf(row), inputs[r], cap, k, c)
    modifies row`error, row`localCount, row`accumulatorCount
    modifies row.candidatePairs, row.segmentCounts, row.localPairs, row.accumulatorPairs, row.histogram
    ensures StateFoldedTo(StateOf(row), inputs[r], cap, k, c + 1)
    ensures forall q :: 0 <= q < |rows| && q != r ==> StateOf(rows[q]) == old(StateOf(rows[q]))
  {
    BoundsFit(inputs[r], columns, c, width);
    BoundsFit(inputs[Partner(r)], columns, c, width);
    RepairRowChunk(row, rows[Partner(r)].failure != 0, inputs[r], columns, k, c, lo, hi, partnerHi);
  }

  /** Fold chunk `c` into every row. Each row touches only its own slices, so taking the
      rows one after the other stands for any order of the blocks. */
  method RepairChunkAllRows(
      rows: seq<RepairRow>, inputs: seq<RowInput>, ghost cap: nat, columns: nat, k: nat, c: nat, ghost width: nat,
      los: seq<int>, his: seq<int>)
    requires RowsValid(rows, inputs, cap, columns, k) && width == REPAIR_SEGMENTS * cap && c * width <= columns
    requires |los| == |his| == |rows|
    requires forall r :: 0 <= r < |rows| ==>
      los[r] == ChunkBound(inputs[r].start, c, width, columns) && his[r] == ChunkBound(inputs[r].end, c, width, columns)
    requires forall r :: 0 <= r < |rows| ==> StateFoldedTo(StateOf(rows[r]), inputs[r], cap, k, c)
    modifies (set row | row in rows)`error, (set row | row in rows)`localCount, (set row | row in rows)`accumulatorCount
    modifies set row | row in rows :: row.candidatePairs
    modifies set row | row in rows :: row.segmentCounts
    modifies set row | row in rows :: row.localPairs
    modifies set row | row in rows :: row.accumulatorPairs
    modifies set row | row in rows :: row.histogram
    ensures forall r :: 0 <= r < |rows| ==> StateFoldedTo(StateOf(rows[r]), inputs[r], cap, k, c + 1)
  {
    for r := 0 to |rows|
      invariant forall q :: 0 <= q < r ==> StateFoldedTo(StateOf(rows[q]), inputs[q], cap, k, c + 1)
      invariant forall q :: r <= q < |rows| ==> StateFoldedTo(StateOf(rows[q]), inputs[q], cap, k, c)
    {
      assert rows[r] in rows;
      RepairOneRow(rows, inputs, cap, columns, k, c, width, los[r], his[r], his[Partner(r)], r, rows[r]);
    }
  }

  function ChunkCount(columns: nat, width: nat): (chunks: nat)
    requires width > 0
    ensures (chunks - 1) * width <= columns <= chunks * width
    ensures columns > 0 ==> chunks > 0
  {
    var chunks := (columns + width - 1) / width;
    assert columns + width - 1 == chunks * width + (columns + width - 1) % width;
    assert (chunks - 1) * width == chunks * width - width;
    chunks
  }

  /** One chunk's rows of the flat range tensors. */
  lemma ChunkRow(
      starts: seq<int>, flat: seq<int>, c: nat, chunks: nat, rows: nat, width: nat, columns: nat)
    requires |starts| == rows > 0 && c < chunks && IsChunkTensor(flat, starts, chunks, width, columns)
    ensures c * rows + rows <= |flat|
    ensures forall r :: 0 <= r < rows ==> flat[c * rows..c * rows + rows][r] == ChunkBound(starts[r], c, width, columns)
  {
    ScaledStep(c, chunks, rows);
    forall r | 0 <= r < rows ensures flat[c * rows..c * rows + rows][r] == ChunkBound(starts[r], c, width, columns) {
      EntryIndex(c, chunks, r, rows);
    }
  }

  /** After the last chunk a flagged row's fold covers its whole range. */
  lemma FoldIsComplete(s: FoldState, input: RowInput, cap: nat, columns: nat, k: nat, chunks: nat)
    requires input.Valid(columns) && chunks > 0 && columns <= chunks * (REPAIR_SEGMENTS * cap)
    requires StateFoldedTo(s, input, cap, k, chunks) && s.failure != 0
    requires |s.acc| == k && input.end - input.start >= k
    ensures s.error == 0 && s.count == k && NoDuplicates(s.acc)
    ensures IsTopK(RangePairs(input.key, input.start, input.end), Members(s.acc), k)
  {
    RangeCardinality(input.key, input.start, input.end);
    AccumulatedRow(s.acc, s.count, SeenBefore(input, chunks, REPAIR_SEGMENTS * cap), k);
  }

  method FinalizeRow(
      row: RepairRow, ghost input: RowInput, ghost cap: nat, ghost columns: nat, k: nat, ghost chunks: nat)
    requires row.Valid(k) && input.Valid(columns) && chunks > 0 && columns <= chunks * (REPAIR_SEGMENTS * cap)
    requires StateFoldedTo(StateOf(row), input, cap, k, chunks)
    requires row.failure != 0 ==> input.end - input.start > k
    modifies row`failure, row.output
    ensures row.failure == 0
    ensures old(row.failure) == 0 ==> row.output[..] == old(row.output[..])
    ensures old(row.failure) != 0 ==> IsExactRow(input.key, row.output[..], input.start, input.end, k)
  {
    ghost var s := StateOf(row);
    if row.failure != 0 {
      FoldIsComplete(s, input, cap, columns, k, chunks);
    }
    row.FinalizeRepair(k);
    if s.failure != 0 {
      RowFromPairs(input.key, input.start, input.end, k, s.acc, row.output[..]);
    }
  }

  /** Every chunk in turn, over the flat range tensors. */
  method FoldAllChunks(
      rows: seq<RepairRow>, inputs: seq<RowInput>, ghost cap: nat, columns: nat, k: nat, chunks: nat, ghost width: nat,
      ghost starts: seq<int>, ghost ends: seq<int>, los: seq<int>, his: seq<int>)
    requires RowsValid(rows, inputs, cap, columns, k) && width == REPAIR_SEGMENTS * cap &&
      (chunks - 1) * width <= columns
    requires |starts| == |ends| == |rows| > 0
    requires forall r :: 0 <= r < |rows| ==> starts[r] == inputs[r].start && ends[r] == inputs[r].end
    requires IsChunkTensor(los, starts, chunks, width, columns) && IsChunkTensor(his, ends, chunks, width, columns)
    modifies (set row | row in rows)`error, (set row | row in rows)`localCount, (set row | row in rows)`accumulatorCount
    modifies set row | row in rows :: row.candidatePairs
    modifies set row | row in rows :: row.segmentCounts
    modifies set row | row in rows :: row.localPairs
    modifies set row | row in rows :: row.accumulatorPairs
    modifies set row | row in rows :: row.histogram
    ensures forall r :: 0 <= r < |rows| ==> StateFoldedTo(StateOf(rows[r]), inputs[r], cap, k, chunks)
  {
    for c := 0 to chunks
      invariant forall r :: 0 <= r < |rows| ==> StateFoldedTo(StateOf(rows[r]), inputs[r], cap, k, c)
    {
      ChunkRow(starts, los, c, chunks, |rows|, width, columns);
      ChunkRow(ends, his, c, chunks, |rows|, width, columns);
      if c < chunks - 1 { ScaledStep(c, chunks - 1, width); }
      RepairChunkAllRows(rows, inputs, cap, columns, k, c, width,
                         los[c * |rows|..c * |rows| + |rows|], his[c * |rows|..c * |rows| + |rows|]);
    }
  }

  /** The closing kernel over all rows. */
  method FinalizeAllRows(
      rows: seq<RepairRow>, ghost inputs: seq<RowInput>, ghost cap: nat, ghost columns: nat, k: nat, ghost chunks: nat,
      ghost flags: seq<nat>, ghost outs: seq<seq<int>>)
    requires RowsValid(rows, inputs, cap, columns, k) && chunks > 0 && columns <= chunks * (REPAIR_SEGMENTS * cap)
    requires |flags| == |outs| == |rows|
    requires forall r :: 0 <= r < |rows| ==> rows[r].failure == flags[r] && rows[r].output[..] == outs[r]
    requires forall r :: 0 <= r < |rows| && flags[r] != 0 ==> inputs[r].end - inputs[r].start > k
    requires forall r :: 0 <= r < |rows| ==> StateFoldedTo(StateOf(rows[r]), inputs[r], cap, k, chunks)
    modifies (set row | row in rows)`failure, set row | row in rows :: row.output
    ensures forall r :: 0 <= r < |rows| ==>
      Repaired(rows[r].failure, rows[r].output[..], flags[r], outs[r], inputs[r], k)
  {
    ghost var states :=
      seq(|rows|, r requires 0 <= r < |rows| reads rows, (set row | row in rows :: row.accumulatorPairs) =>
      StateOf(rows[r]));
    for r := 0 to |rows|
      invariant forall q :: 0 <= q < r ==>
        Repaired(rows[q].failure, rows[q].output[..], flags[q], outs[q], inputs[q], k)
      invariant forall q :: r <= q < |rows| ==>
        rows[q].failure == flags[q] && rows[q].output[..] == outs[q] && StateOf(rows[q]) == states[q]
    {
      assert rows[r] in rows;
      FinalizeRow(rows[r], inputs[r], cap, columns, k, chunks);
    }
  }

  /** The repair's effect on one row: a flagged row is now exact, any other is untouched,
      and no flag is left. */
  ghost predicate Repaired(failure: nat, output: seq<int>, flag: nat, out: seq<int>, input: RowInput, k: nat) {
    && failure == 0
    && (flag == 0 ==> output == out)
    && (flag != 0 ==> IsExactRow(input.key, output, input.start, input.end, k))
  }

  /** Device-masked exact repair of all rows: build the chunk ranges, fold every chunk, then
      commit. Flagged rows become exact and lose their flag; the others are not touched. */
  method RunHierarchicalRepair(
      rows: seq<RepairRow>, inputs: seq<RowInput>, cap: nat, columns: nat, k: nat,
      chunkStarts: array<int>, chunkEnds: array<int>, ghost flags: seq<nat>, ghost outs: seq<seq<int>>)
    requires RowsValid(rows, inputs, cap, columns, k) && rows != [] && columns > 0
    requires chunkStarts.Length == chunkEnds.Length == ChunkCount(columns, REPAIR_SEGMENTS * cap) * |rows|
    requires chunkStarts != chunkEnds && forall row :: row in rows ==>
      row.output != chunkStarts && row.output != chunkEnds
    requires |flags| == |outs| == |rows|
    requires forall r :: 0 <= r < |rows| ==> rows[r].failure == flags[r] && rows[r].output[..] == outs[r]
    requires forall r :: 0 <= r < |rows| && flags[r] != 0 ==> inputs[r].end - inputs[r].start > k
    modifies (set row | row in rows)`error, (set row | row in rows)`localCount, (set row | row in rows)`accumulatorCount
    modifies (set row | row in rows)`failure
    modifies set row | row in rows :: row.candidatePairs
    modifies set row | row in rows :: row.segmentCounts
    modifies set row | row in rows :: row.localPairs
    modifies set row | row in rows :: row.accumulatorPairs
    modifies set row | row in rows :: row.histogram
    modifies set row | row in rows :: row.output
    modifies chunkStarts, chunkEnds
    ensures forall r :: 0 <= r < |rows| ==>
      Repaired(rows[r].failure, rows[r].output[..], flags[r], outs[r], inputs[r], k)
  {
    var width := REPAIR_SEGMENTS * cap;
    var chunks := ChunkCount(columns, width);
    var starts := seq(|inputs|, r requires 0 <= r < |inputs| => inputs[r].start as int);
    var ends := seq(|inputs|, r requires 0 <= r < |inputs| => inputs[r].end as int);
    UpdateChunkRanges(starts, ends, chunkStarts, chunkEnds, width, columns, chunks);
    FoldAllChunks(rows, inputs, cap, columns, k, chunks, width, starts, ends, chunkStarts[..], chunkEnds[..]);
    FinalizeAllRows(rows, inputs, cap, columns, k, chunks, flags, outs);
  }

  /** Every row is exact and unflagged; a row the fused kernel settled keeps that output. */
  ghost predicate Settled(failure: nat, output: seq<int>, flag: nat, out: seq<int>, input: RowInput, k: nat) {
    && failure == 0
    && IsExactRow(input.key, output, input.start, input.end, k)
    && (flag == 0 ==> output == out)
  }

  /** The repository's main claim. Whatever floors the sampling stage produced, infinities
      included, and whatever the workspaces held before, the fused kernel followed by the
      repair leaves every row unflagged with an exact Top-k; the repair runs on exactly the
      rows whose floor did not suffice and leaves every other row's output alone. */
  method RunOperator(
      rows: seq<RepairRow>, inputs: seq<RowInput>, cap: nat, columns: nat, blockQ: nat,
      segmentCapacity: nat, spillCapacity: nat, k: nat, segmented: bool,
      chunkStarts: array<int>, chunkEnds: array<int>)
    returns (ghost flags: seq<nat>, ghost outs: seq<seq<int>>)
    requires RowsValid(rows, inputs, cap, columns, k) && rows != [] && columns > 0 && segmentCapacity > 0
    requires blockQ > 0 && |rows| % blockQ == 0
    requires chunkStarts.Length == chunkEnds.Length == ChunkCount(columns, REPAIR_SEGMENTS * cap) * |rows|
    requires chunkStarts != chunkEnds && forall row :: row in rows ==>
      row.output != chunkStarts && row.output != chunkEnds
    modifies (set row | row in rows)`error, (set row | row in rows)`localCount, (set row | row in rows)`accumulatorCount
    modifies (set row | row in rows)`failure
    modifies set row | row in rows :: row.candidatePairs
    modifies set row | row in rows :: row.segmentCounts
    modifies set row | row in rows :: row.localPairs
    modifies set row | row in rows :: row.accumulatorPairs
    modifies set row | row in rows :: row.histogram
    modifies set row | row in rows :: row.output
    modifies chunkStarts, chunkEnds
    ensures |flags| == |outs| == |rows|
    ensures forall r :: 0 <= r < |rows| ==> FastOutcome(flags[r], outs[r], inputs[r], segmentCapacity, spillCapacity, k)
    ensures forall r :: 0 <= r < |rows| ==>
      Settled(rows[r].failure, rows[r].output[..], flags[r], outs[r], inputs[r], k)
  {
    flags, outs := RunFusedTopK(rows, inputs, cap, columns, blockQ, segmentCapacity, spillCapacity, k, segmented);
    RunHierarchicalRepair(rows, inputs, cap, columns, k, chunkStarts, chunkEnds, flags, outs);
  }

  const TOP_K: nat := 2048
  const SEGMENT_CAPACITY: nat := 736
  const SPILL_PER_SEGMENT: nat := 256
  const REPAIR_SEGMENT_CAPACITY: nat := 1024

  /** The shipped instance: Top-2048, eight segments of 736 slots with 256 spill entries
      each, repair chunks of 16 x 1024 columns, one or two rows a block. */
  method RunProductionOperator(
      rows: seq<RepairRow>, inputs: seq<RowInput>, columns: nat, blockQ: nat, segmented: bool,
      chunkStarts: array<int>, chunkEnds: array<int>)
    returns (ghost flags: seq<nat>, ghost outs: seq<seq<int>>)
    requires RowsValid(rows, inputs, 1024, columns, 2048) && rows != [] && columns > 0
    requires blockQ == 1 || blockQ == 2
    requires chunkStarts.Length == chunkEnds.Length == ((columns + 16383) / 16384) * |rows|
    requires chunkStarts != chunkEnds && forall row :: row in rows ==>
      row.output != chunkStarts && row.output != chunkEnds
    modifies (set row | row in rows)`error, (set row | row in rows)`localCount, (set row | row in rows)`accumulatorCount
    modifies (set row | row in rows)`failure
    modifies set row | row in rows :: row.candidatePairs
    modifies set row | row in rows :: row.segmentCounts
    modifies set row | row in rows :: row.localPairs
    modifies set row | row in rows :: row.accumulatorPairs
    modifies set row | row in rows :: row.histogram
    modifies set row | row in rows :: row.output
    modifies chunkStarts, chunkEnds
    ensures |flags| == |outs| == |rows|
    ensures forall r :: 0 <= r < |rows| ==> FastOutcome(flags[r], outs[r], inputs[r], 736, 256, 2048)
    ensures forall r :: 0 <= r < |rows| ==>
      rows[r].failure == 0 && IsExactRow(inputs[r].key, rows[r].output[..], inputs[r].start, inputs[r].end, 2048)
  {
    assert ChunkCount(columns, REPAIR_SEGMENTS * REPAIR_SEGMENT_CAPACITY) == (columns + 16383) / 16384;
    flags, outs := RunOperator(
      rows, inputs, REPAIR_SEGMENT_CAPACITY, columns, blockQ, SEGMENT_CAPACITY, SPILL_PER_SEGMENT, TOP_K, segmented,
      chunkStarts, chunkEnds);
  }

  // ---------- preparation ----------

  /** The workspaces of one prepared graph: rows that share no storage. */
  method PrepareRows(n: nat, k: nat, cap: nat) returns (rows: seq<RepairRow>)
    requires k > 0
    ensures |rows| == n
    ensures forall r :: 0 <= r < n ==> rows[r].Valid(k) && rows[r].segmentCapacity == cap
    ensures forall r, q :: 0 <= r < n && 0 <= q < n && r != q ==> rows[r].Apart(rows[q])
    ensures forall row :: row in rows ==> fresh(row) && fresh(row.candidatePairs) && fresh(row.segmentCounts)
    ensures forall row :: row in rows ==> fresh(row.localPairs) && fresh(row.accumulatorPairs)
    ensures forall row :: row in rows ==> fresh(row.output) && fresh(row.histogram)
  {
    rows := [];
    for i := 0 to n
      invariant |rows| == i
      invariant forall r :: 0 <= r < i ==> rows[r].Valid(k) && rows[r].segmentCapacity == cap
      invariant forall r, q :: 0 <= r < i && 0 <= q < i && r != q ==> rows[r].Apart(rows[q])
      invariant forall row :: row in rows ==> fresh(row) && fresh(row.candidatePairs) && fresh(row.segmentCounts)
      invariant forall row :: row in rows ==> fresh(row.localPairs) && fresh(row.accumulatorPairs)
      invariant forall row :: row in rows ==> fresh(row.output) && fresh(row.histogram)
    {
      var row := new RepairRow(k, cap);
      rows := rows + [row];
    }
  }

  /** The operator from preparation to output: no workspace is asked of the caller. */
  method PrepareAndRun(
      inputs: seq<RowInput>, cap: nat, columns: nat, blockQ: nat, segmentCapacity: nat, spillCapacity: nat, k: nat,
      segmented: bool)
    returns (rows: seq<RepairRow>)
    requires inputs != [] && |inputs| % 2 == 0 && forall r :: 0 <= r < |inputs| ==> inputs[r].Valid(columns)
    requires 0 < columns <= MAX_CONTEXT && cap > 0 && cap % TILE_LANES == 0 && segmentCapacity > 0 && k > 0
    requires blockQ > 0 && |inputs| % blockQ == 0
    ensures |rows| == |inputs|
    ensures forall r :: 0 <= r < |rows| ==>
      rows[r].failure == 0 && IsExactRow(inputs[r].key, rows[r].output[..], inputs[r].start, inputs[r].end, k)
  {
    rows := PrepareRows(|inputs|, k, cap);
    var n := ChunkCount(columns, REPAIR_SEGMENTS * cap) * |rows|;
    var chunkStarts, chunkEnds := new int[n], new int[n];
    ghost var flags, outs := RunOperator(
      rows, inputs, cap, columns, blockQ, segmentCapacity, spillCapacity, k, segmented, chunkStarts, chunkEnds);
  }

  /** The shipped sizes. */
  method PrepareAndRunProduction(inputs: seq<RowInput>, columns: nat, blockQ: nat, segmented: bool)
    returns (rows: seq<RepairRow>)
    requires inputs != [] && |inputs| % 2 == 0 && forall r :: 0 <= r < |inputs| ==> inputs[r].Valid(columns)
    requires 0 < columns <= 163840 && (blockQ == 1 || blockQ == 2)
    ensures |rows| == |inputs|
    ensures forall r :: 0 <= r < |rows| ==>
      rows[r].failure == 0 && IsExactRow(inputs[r].key, rows[r].output[..], inputs[r].start, inputs[r].end, 2048)
  {
    rows := PrepareRows(|inputs|, TOP_K, REPAIR_SEGMENT_CAPACITY);
    var n := ((columns + 16383) / 16384) * |rows|;
    var chunkStarts, chunkEnds := new int[n], new int[n];
    ghost var flags, outs := RunProductionOperator(rows, inputs, columns, blockQ, segmented, chunkStarts, chunkEnds);
  }
}
