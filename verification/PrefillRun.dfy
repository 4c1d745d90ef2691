/** A whole case: sample a floor per row, run the operator, judge its output against the
    reference. The output always passes. */
module PrefillRun {
  import opened Arithmetic
  import opened Exactness
  import opened RadixSelect
  import opened FloatKeys
  import opened SampledThreshold
  import opened CandidateEmission
  import opened CtaSelection
  import opened FusedRow
  import opened HierarchicalRepair
  import opened FusedOperator
  import opened OutputValidation
  import opened ScoreOracle

  /** One row of reference logits: binary32 words, finite up to the causal end and minus
      infinity after it. */
  ghost predicate CausalLogits(row: seq<nat>, end: nat) {
    && end <= |row|
    && (forall id :: 0 <= id < end ==> row[id] < KEY_SPACE && IsFinite(row[id]))
    && forall id :: end <= id < |row| ==> row[id] == NEGATIVE_INFINITY
  }

  ghost predicate LogitsValid(logits: seq<seq<nat>>, c: Case)
    requires c.Valid()
  {
    && ShapeMatches(logits, c.queryTokens, c.contextTokens)
    && forall r :: 0 <= r < c.queryTokens ==> CausalLogits(logits[r], c.CausalEnd(r))
  }

  /** The order key of every logit. */
  function KeysOf(row: seq<nat>): (keys: seq<nat>)
    requires forall id :: 0 <= id < |row| ==> row[id] < KEY_SPACE
    ensures |keys| == |row|
  {
    seq(|row|, id requires 0 <= id < |row| => OrderedFloat(row[id]))
  }

  lemma KeysAreCausalScores(row: seq<nat>, end: nat)
    requires CausalLogits(row, end)
    ensures CausalScores(KeysOf(row), end)
    ensures forall id :: 0 <= id < end ==> IsFiniteKey(KeysOf(row)[id])
  {
    FiniteKeys(NEGATIVE_INFINITY);
    forall id | 0 <= id < end ensures IsFiniteKey(KeysOf(row)[id]) {
      FiniteKeys(row[id]);
    }
  }

  function ScoresOf(logits: seq<seq<nat>>): (scores: seq<seq<nat>>)
    requires forall r, id :: 0 <= r < |logits| && 0 <= id < |logits[r]| ==> logits[r][id] < KEY_SPACE
    ensures |scores| == |logits|
    ensures forall r :: 0 <= r < |logits| ==> scores[r] == KeysOf(logits[r])
  {
    seq(|logits|, r requires 0 <= r < |logits| => KeysOf(logits[r]))
  }

  /** The row as the kernels see it; nothing past the context is ever looked at. */
  function RowScores(keys: seq<nat>): nat -> nat {
    (id: nat) => if id < |keys| then keys[id] else SIGN
  }

  /** Exactness only looks at the keys of the range. */
  lemma SameKeysSameRows(a: nat -> nat, b: nat -> nat, row: seq<int>, lo: nat, hi: nat, k: nat)
    requires forall id :: lo <= id < hi ==> a(id) == b(id)
    ensures IsExactRow(a, row, lo, hi, k) <==> IsExactRow(b, row, lo, hi, k)
  {
    if IsWellFormedRow(row, lo, hi, k) {
      forall i: nat, j: nat | i in SelectedIds(row) && lo <= j < hi ensures a(j) <= a(i) <==> b(j) <= b(i) {
      }
    }
  }

  /** The floor the sampling stage hands to the fused kernel. */
  method SampleFloor(row: seq<nat>, sampleIds: seq<nat>, end: nat, sampleRank: nat, target: nat) returns (floor: nat)
    requires CausalLogits(row, end) && 0 < sampleRank <= |sampleIds|
    requires forall s :: 0 <= s < |sampleIds| ==> sampleIds[s] < |row|
    ensures IsNumberKey(floor)
  {
    var sampled := seq(|sampleIds|, s requires 0 <= s < |sampleIds| => row[sampleIds[s]]);
    var threshold := SampledThresholdRadix(sampled, sampleIds, 0, end, sampleRank, target);
    FiniteKeys(threshold);
    floor := OrderedFloat(threshold);
  }

  /** One row through sampling and the fused kernel. With distinct samples and a rank of at
      least k, a row is settled exactly when it has at most k tokens or no group of IDs has more
      tokens at or above the sampled floor than its slots and spill hold. */
  method SampleAndSelect(
      scratch: SelectionScratch, row: seq<nat>, sampleIds: seq<nat>, end: nat, sampleRank: nat, target: nat, k: nat,
      tiles: nat, segmented: bool, output: array<int>)
    returns (failure: nat, ghost threshold: nat)
    requires CausalLogits(row, end) && 0 < k <= sampleRank <= |sampleIds| && NoDuplicates(sampleIds)
    requires forall s :: 0 <= s < |sampleIds| ==> sampleIds[s] < |row|
    requires scratch.Valid() && output.Length == k && end <= MAX_CONTEXT && end <= tiles * 128
    modifies scratch, scratch.scores, scratch.indices, scratch.spill, scratch.counts, scratch.histogram, output
    ensures threshold < KEY_SPACE
    ensures
      var sampled := seq(|sampleIds|, s requires 0 <= s < |sampleIds| => row[sampleIds[s]]);
      ValidSamples(sampled, sampleIds) && IsFloorOf(sampled, sampleIds, 0, end, sampleRank, target, threshold)
    ensures failure == 0 <==>
      end <= k ||
      forall g :: 0 <= g < 8 ==>
        |GroupReachingFloor(RowScores(KeysOf(row)), Filter(0, end, OrderedFloat(threshold)), g)| <=
        scratch.segmentCapacity + scratch.spillCapacity
    ensures failure == 0 ==> IsExactRow(RowScores(KeysOf(row)), output[..], 0, end, k)
    ensures failure != 0 ==> failure == 1 && output[..] == seq(k, j => -1)
  {
    var sampled := seq(|sampleIds|, s requires 0 <= s < |sampleIds| => row[sampleIds[s]]);
    var sampledThreshold := SampledThresholdRadix(sampled, sampleIds, 0, end, sampleRank, target);
    threshold := sampledThreshold;
    FiniteKeys(threshold);
    var key, f := RowScores(KeysOf(row)), Filter(0, end, OrderedFloat(sampledThreshold));
    if end > k {
      SampledFloorAdmits((id: nat) => if id < |row| then row[id] else 0, sampled, sampleIds, 0, end, sampleRank, target,
                         threshold, k, ReachingFloor(key, f));
    }
    KeysAreCausalScores(row, end);
    failure := FusedTopKRow(scratch, key, f, tiles, k, segmented, output);
  }

  ghost predicate IsRowInput(input: RowInput, row: seq<nat>, end: nat) {
    && CausalLogits(row, end)
    && input.key == RowScores(KeysOf(row)) && input.start == 0 && input.end == end && IsNumberKey(input.floor)
  }

  lemma RowInputIsValid(input: RowInput, row: seq<nat>, end: nat, columns: nat)
    requires IsRowInput(input, row, end) && end <= columns
    ensures input.Valid(columns)
  {
    KeysAreCausalScores(row, end);
  }

  /** Sample every row's floor. */
  method SampleRows(logits: seq<seq<nat>>, sampleIds: seq<nat>, sampleRank: nat, target: nat, c: Case)
    returns (inputs: seq<RowInput>)
    requires c.Valid() && LogitsValid(logits, c) && 0 < sampleRank <= |sampleIds|
    requires forall s :: 0 <= s < |sampleIds| ==> sampleIds[s] < c.contextTokens
    ensures |inputs| == c.queryTokens
    ensures forall r :: 0 <= r < c.queryTokens ==> IsRowInput(inputs[r], logits[r], c.CausalEnd(r))
  {
    inputs := [];
    for r := 0 to c.queryTokens
      invariant |inputs| == r
      invariant forall q :: 0 <= q < r ==> IsRowInput(inputs[q], logits[q], c.CausalEnd(q))
    {
      assert CausalLogits(logits[r], c.CausalEnd(r));
      var floor := SampleFloor(logits[r], sampleIds, c.CausalEnd(r), sampleRank, target);
      inputs := inputs + [RowInput(RowScores(KeysOf(logits[r])), 0, c.CausalEnd(r), floor)];
    }
  }

  /** Finite causal scores always have finite cutoffs. */
  lemma FiniteRowsHaveFiniteCutoffs(keys: seq<nat>, end: nat, k: nat)
    requires CausalScores(keys, end) && end > k > 0 && forall id :: 0 <= id < end ==> IsFiniteKey(keys[id])
    ensures FiniteCutoff(keys, end, k)
  {
    assert Reaching(keys, end, NEGATIVE_INFINITY_KEY + 1) == Interval(0, end);
    assert Reaching(keys, end, POSITIVE_INFINITY_KEY) == {};
  }

  lemma LogitsAreValidScores(logits: seq<seq<nat>>, c: Case)
    requires c.Valid() && LogitsValid(logits, c)
    ensures forall r, id :: 0 <= r < |logits| && 0 <= id < |logits[r]| ==> logits[r][id] < KEY_SPACE
    ensures ShapeMatches(ScoresOf(logits), c.queryTokens, c.contextTokens)
    ensures ScoresValid(ScoresOf(logits), c) && FiniteCutoffs(ScoresOf(logits), c)
  {
    forall r, id | 0 <= r < |logits| && 0 <= id < |logits[r]| ensures logits[r][id] < KEY_SPACE {
      assert CausalLogits(logits[r], c.CausalEnd(r));
    }
    forall r | 0 <= r < c.queryTokens
      ensures CausalScores(ScoresOf(logits)[r], c.CausalEnd(r)) && RowCutoffFinite(ScoresOf(logits)[r], c, r)
    {
      KeysAreCausalScores(logits[r], c.CausalEnd(r));
      if Eligible(c, r) {
        FiniteRowsHaveFiniteCutoffs(KeysOf(logits[r]), c.CausalEnd(r), c.topK);
      }
    }
  }

  /** The operator's rows, as the output tensor holds them. */
  ghost predicate OutputsAre(rows: seq<RepairRow>, outputs: seq<seq<int>>)
    reads rows, set row | row in rows :: row.output
  {
    |outputs| == |rows| && forall r :: 0 <= r < |rows| ==> rows[r].output[..] == outputs[r]
  }

  method ReadOutputs(rows: seq<RepairRow>) returns (outputs: seq<seq<int>>)
    ensures OutputsAre(rows, outputs)
  {
    outputs := [];
    for r := 0 to |rows|
      invariant |outputs| == r && forall q :: 0 <= q < r ==> rows[q].output[..] == outputs[q]
    {
      outputs := outputs + [rows[r].output[..]];
    }
  }

  lemma SettledRowsAreExact(
      logits: seq<seq<nat>>, inputs: seq<RowInput>, outputs: seq<seq<int>>, c: Case)
    requires c.Valid() && LogitsValid(logits, c) && |inputs| == |outputs| == c.queryTokens
    requires forall r :: 0 <= r < c.queryTokens ==> IsRowInput(inputs[r], logits[r], c.CausalEnd(r))
    requires forall r :: 0 <= r < c.queryTokens ==>
      IsExactRow(inputs[r].key, outputs[r], inputs[r].start, inputs[r].end, c.topK)
    requires forall r, id :: 0 <= r < |logits| && 0 <= id < |logits[r]| ==> logits[r][id] < KEY_SPACE
    ensures AllExact(ScoresOf(logits), outputs, c)
  {
    forall r | 0 <= r < c.queryTokens ensures RowExact(ScoresOf(logits)[r], outputs[r], c, r) {
      SameKeysSameRows(inputs[r].key, RowKey(KeysOf(logits[r])), outputs[r], 0, c.CausalEnd(r), c.topK);
    }
  }

  /** The output row of the query at position `last`: distinct positions up to its own, and no
      position left out whose logit is a larger number than a chosen one's. */
  ghost predicate TakesLargest(row: seq<nat>, out: seq<int>, last: nat, k: nat)
    requires CausalLogits(row, last + 1)
  {
    && ListsPositions(out, last, k)
    && forall i: nat, j: nat :: i in out && j <= last && j !in out ==>
         i <= last && !Below(Denotes(row[i]), Denotes(row[j]))
  }

  ghost predicate AllTakeLargest(logits: seq<seq<nat>>, outputs: seq<seq<int>>, c: Case)
    requires c.Valid() && LogitsValid(logits, c)
  {
    |outputs| == c.queryTokens && forall r :: 0 <= r < c.queryTokens ==>
      TakesLargest(logits[r], outputs[r], c.contextTokens - c.queryTokens + r, c.topK)
  }

  lemma AllExactTakeLargest(logits: seq<seq<nat>>, outputs: seq<seq<int>>, c: Case)
    requires c.Valid() && LogitsValid(logits, c)
    requires forall r, id :: 0 <= r < |logits| && 0 <= id < |logits[r]| ==> logits[r][id] < KEY_SPACE
    requires AllExact(ScoresOf(logits), outputs, c)
    ensures AllTakeLargest(logits, outputs, c)
  {
    forall r | 0 <= r < c.queryTokens
      ensures TakesLargest(logits[r], outputs[r], c.contextTokens - c.queryTokens + r, c.topK)
    {
      var last := c.contextTokens - c.queryTokens + r;
      assert RowExact(ScoresOf(logits)[r], outputs[r], c, r);
      WellFormedLists(outputs[r], last, c.topK);
      ExactInNumbers(logits[r], outputs[r], last + 1, c.topK);
      forall i: nat, j: nat | i in outputs[r] && j <= last && j !in outputs[r]
        ensures i <= last && !Below(Denotes(logits[r][i]), Denotes(logits[r][j]))
      {
        assert i in SelectedIds(outputs[r]) && j !in SelectedIds(outputs[r]);
      }
    }
  }

  /** What an exact row means for the logits as numbers: no selected one is below an
      unselected causal one. */
  lemma ExactInNumbers(row: seq<nat>, out: seq<int>, end: nat, k: nat)
    requires CausalLogits(row, end) && IsExactRow(RowKey(KeysOf(row)), out, 0, end, k)
    ensures forall i: nat, j: nat :: i in SelectedIds(out) && j < end && j !in SelectedIds(out) ==>
      i < end && !Below(Denotes(row[i]), Denotes(row[j]))
  {
    forall i: nat, j: nat | i in SelectedIds(out) && j < end && j !in SelectedIds(out)
      ensures i < end && !Below(Denotes(row[i]), Denotes(row[j]))
    {
      assert RowKey(KeysOf(row))(j) <= RowKey(KeysOf(row))(i);
      OrderEmbedding(row[i], row[j]);
    }
  }

  /** The workspaces of one prepared graph, apart from the per-row ones. */
  ghost predicate RangesApart(rows: seq<RepairRow>, chunkStarts: array<int>, chunkEnds: array<int>) {
    chunkStarts != chunkEnds && forall row :: row in rows ==> row.output != chunkStarts && row.output != chunkEnds
  }

  /** Sample, select, repair: every row of the output is an exact Top-K of the logits. */
  method RunGraph(
      logits: seq<seq<nat>>, sampleIds: seq<nat>, sampleRank: nat, target: nat, c: Case,
      rows: seq<RepairRow>, cap: nat, blockQ: nat, segmentCapacity: nat, spillCapacity: nat, segmented: bool,
      chunkStarts: array<int>, chunkEnds: array<int>)
    returns (outputs: seq<seq<int>>)
    requires c.Valid() && LogitsValid(logits, c) && 0 < sampleRank <= |sampleIds|
    requires forall s :: 0 <= s < |sampleIds| ==> sampleIds[s] < c.contextTokens
    requires |rows| == c.queryTokens > 0 && |rows| % 2 == 0 && c.contextTokens <= MAX_CONTEXT
    requires cap > 0 && cap % TILE_LANES == 0 && segmentCapacity > 0 && blockQ > 0 && |rows| % blockQ == 0
    requires forall r :: 0 <= r < |rows| ==> rows[r].Valid(c.topK) && rows[r].segmentCapacity == cap
    requires forall r, q :: 0 <= r < |rows| && 0 <= q < |rows| && r != q ==> rows[r].Apart(rows[q])
    requires chunkStarts.Length == chunkEnds.Length == ChunkCount(c.contextTokens, REPAIR_SEGMENTS * cap) * |rows|
    requires RangesApart(rows, chunkStarts, chunkEnds)
    modifies (set row | row in rows)`error, (set row | row in rows)`localCount, (set row | row in rows)`accumulatorCount
    modifies (set row | row in rows)`failure
    modifies set row | row in rows :: row.candidatePairs
    modifies set row | row in rows :: row.segmentCounts
    modifies set row | row in rows :: row.localPairs
    modifies set row | row in rows :: row.accumulatorPairs
    modifies set row | row in rows :: row.histogram
    modifies set row | row in rows :: row.output
    modifies chunkStarts, chunkEnds
    ensures forall r, id :: 0 <= r < |logits| && 0 <= id < |logits[r]| ==> logits[r][id] < KEY_SPACE
    ensures AllExact(ScoresOf(logits), outputs, c) && AllTakeLargest(logits, outputs, c)
  {
    LogitsAreValidScores(logits, c);
    var inputs := SampleRows(logits, sampleIds, sampleRank, target, c);
    forall r | 0 <= r < |rows| ensures inputs[r].Valid(c.contextTokens) {
      RowInputIsValid(inputs[r], logits[r], c.CausalEnd(r), c.contextTokens);
    }
    ghost var flags, outs := RunOperator(
      rows, inputs, cap, c.contextTokens, blockQ, segmentCapacity, spillCapacity, c.topK, segmented,
      chunkStarts, chunkEnds);
    outputs := ReadOutputs(rows);
    SettledRowsAreExact(logits, inputs, outputs, c);
    AllExactTakeLargest(logits, outputs, c);
  }

  /** From preparation to output: the workspaces are the run's own, so nothing is asked but the
      logits and the launch sizes, and nothing of the caller's is written. */
  method PrepareAndRunGraph(
      logits: seq<seq<nat>>, sampleIds: seq<nat>, sampleRank: nat, target: nat, c: Case,
      cap: nat, blockQ: nat, segmentCapacity: nat, spillCapacity: nat, segmented: bool)
    returns (outputs: seq<seq<int>>)
    requires c.Valid() && LogitsValid(logits, c) && 0 < sampleRank <= |sampleIds|
    requires forall s :: 0 <= s < |sampleIds| ==> sampleIds[s] < c.contextTokens
    requires c.queryTokens > 0 && c.queryTokens % 2 == 0 && c.contextTokens <= MAX_CONTEXT
    requires cap > 0 && cap % TILE_LANES == 0 && segmentCapacity > 0 && blockQ > 0 && c.queryTokens % blockQ == 0
    ensures forall r, id :: 0 <= r < |logits| && 0 <= id < |logits[r]| ==> logits[r][id] < KEY_SPACE
    ensures AllExact(ScoresOf(logits), outputs, c) && AllTakeLargest(logits, outputs, c)
  {
    var rows := PrepareRows(c.queryTokens, c.topK, cap);
    var n := ChunkCount(c.contextTokens, REPAIR_SEGMENTS * cap) * |rows|;
    var chunkStarts, chunkEnds := new int[n], new int[n];
    outputs := RunGraph(
      logits, sampleIds, sampleRank, target, c, rows, cap, blockQ, segmentCapacity, spillCapacity, segmented,
      chunkStarts, chunkEnds);
  }

  /** What the benchmark's gate concludes about such an output, on either comparison path:
      whenever the reference itself is exact, the candidate passes. */
  method JudgeRun(logits: seq<seq<nat>>, baseline: seq<seq<int>>, outputs: seq<seq<int>>, c: Case, tensors: bool)
    returns (oracleBuilt: bool, passed: bool)
    requires c.Valid() && c.contextTokens <= MAX_CONTEXT && LogitsValid(logits, c)
    requires forall r, id :: 0 <= r < |logits| && 0 <= id < |logits[r]| ==> logits[r][id] < KEY_SPACE
    requires AllExact(ScoresOf(logits), outputs, c)
    ensures oracleBuilt <==> AllExact(ScoresOf(logits), baseline, c)
    ensures passed <==> oracleBuilt
  {
    LogitsAreValidScores(logits, c);
    AgreeWhenUnused(baseline, c);
    if AllExact(ScoresOf(logits), baseline, c) {
      forall r | 0 <= r < c.queryTokens ensures IsWellFormedRow(baseline[r], 0, c.CausalEnd(r), c.topK) {
        assert RowExact(ScoresOf(logits)[r], baseline[r], c, r);
      }
    }
    oracleBuilt, passed := JudgeCandidate(ScoresOf(logits), baseline, outputs, c, tensors);
  }
}
