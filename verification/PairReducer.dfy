/** The reducer both repair kernels run: an exact Top-k of a list of pairs, written in
    place over whatever the output row held, with its defensive self-check. */
module PairReducer {
  import opened Arithmetic
  import opened Exactness
  import opened WarpPrimitives
  import opened RadixSelect
  import opened Emission

  const NO_PAIR := Pair(0, 0)

  /** The packed word keeps its key; its 32-bit ID half moves by the chunk offset. */
  function AddLogicalOffset(p: Pair, offset: nat): Pair {
    Pair(p.key, (p.id + offset) % KEY_SPACE)
  }

  function Shifted(p: Pair, offset: nat, apply: bool): Pair {
    if apply then AddLogicalOffset(p, offset) else p
  }

  /** Finite scores have nonzero 32-bit keys. */
  ghost predicate ValidPairs(input: seq<Pair>) {
    NoDuplicates(input) && forall i :: 0 <= i < |input| ==> 0 < input[i].key < KEY_SPACE
  }

  /** The first `Min(|input|, k)` output pairs are an exact Top-k of the input, shifted;
      when the input is short the rest of the row is cleared. */
  ghost predicate IsReduction(input: seq<Pair>, k: nat, offset: nat, apply: bool, out: seq<Pair>, picked: seq<Pair>) {
    && |out| == k && |picked| == Min(|input|, k) && NoDuplicates(picked)
    && IsTopK(Members(input), Members(picked), k)
    && (forall j :: 0 <= j < |picked| ==>
          out[j] == Pair(picked[j].key, if apply then (picked[j].id + offset) % 0x1_0000_0000 else picked[j].id))
    && forall j :: |picked| <= j < k ==> out[j] == Pair(0, 0)
  }

  /** Threads count their strided positions; warps add their sums. */
  method CountGreater(keys: seq<nat>, threshold: nat) returns (total: nat)
    requires ValidKeys(keys, Interval(0, |keys|))
    ensures total == |Between(keys, Interval(0, |keys|), threshold + 1, KEY_SPACE)|
  {
    total := 0;
    ghost var greater: set<nat> := {};
    for i := 0 to |keys|
      invariant greater == Between(keys, Interval(0, i), threshold + 1, KEY_SPACE) && total == |greater|
    {
      if keys[i] > threshold {
        total := total + 1;
        greater := greater + {i};
      }
    }
  }

  method CopyShort(input: seq<Pair>, output: array<Pair>, offset: nat, apply: bool)
    requires |input| <= output.Length
    modifies output
    ensures forall j :: 0 <= j < output.Length ==>
      output[j] == if j < |input| then Shifted(input[j], offset, apply) else NO_PAIR
  {
    for i := 0 to output.Length
      invariant forall j :: 0 <= j < i ==>
        output[j] == if j < |input| then Shifted(input[j], offset, apply) else NO_PAIR
    {
      output[i] := if i < |input| then Shifted(input[i], offset, apply) else NO_PAIR;
    }
  }

  /** The kernel's closing sanity test on its own counters: silent exactly when all larger
      scores were emitted, fewer than k of them, and the ties can complete the k. */
  function SelfCheck(totalGreater: int, greaterCounter: int, equalCounter: int, k: int): (defect: nat)
    ensures defect == 0 <==> 0 <= totalGreater == greaterCounter < k <= totalGreater + equalCounter
    ensures defect <= 1
  {
    var needed := k - totalGreater;
    if totalGreater < 0 || totalGreater >= k || greaterCounter != totalGreater ||
       needed <= 0 || equalCounter < needed then 1
    else 0
  }

  lemma AllFlagged(flags: seq<bool>)
    requires forall i :: 0 <= i < |flags| ==> flags[i]
    ensures Flagged(flags) == Interval(0, |flags|)
  {
  }

  /** The k-th largest score and how many scores beat it. */
  method FindThreshold(input: seq<Pair>, k: nat, histogram: array<nat>) returns (threshold: nat, totalGreater: nat)
    requires ValidPairs(input) && 0 < k < |input| && histogram.Length == BINS
    modifies histogram
    ensures totalGreater < k && IsKthLargest(Keys(input), Interval(0, |input|), k, threshold, k - totalGreater)
  {
    var keys := Keys(input);
    var nonzero := seq(|input|, i requires 0 <= i < |input| => keys[i] != 0);
    AllFlagged(nonzero);
    threshold := SelectScore(histogram, keys, nonzero, k);
    totalGreater := CountGreater(keys, threshold);
    assert exists ties: nat :: IsKthLargest(keys, Interval(0, |input|), k, threshold, ties);
  }

  /** More pairs than slots: find the k-th largest key, count what beats it, emit. */
  method ReduceLong(input: seq<Pair>, output: array<Pair>, offset: nat, apply: bool, histogram: array<nat>)
    returns (selectionError: nat, ghost picked: seq<Pair>)
    requires ValidPairs(input) && 0 < output.Length < |input| && histogram.Length == BINS
    modifies output, histogram
    ensures selectionError == 0
    ensures IsSelection(Members(input), output.Length, (p: Pair) => Shifted(p, offset, apply), output[..], picked)
  {
    var k := output.Length;
    var runs := [Block(0, |input|)];
    var threshold, totalGreater := FindThreshold(input, k, histogram);
    WholeRun(input, runs);
    var greaterCounter, equalCounter;
    greaterCounter, equalCounter, picked :=
      EmitSelected(input, (p: Pair) => Shifted(p, offset, apply), runs, threshold, k - totalGreater, k, output);
    selectionError := SelfCheck(totalGreater, greaterCounter, equalCounter, k);
  }

  /** Exact Top-k of `input` into `output`. The defensive check never fires. */
  method SelectTopKPairs(input: seq<Pair>, output: array<Pair>, offset: nat, apply: bool, histogram: array<nat>)
    returns (selectionError: nat, ghost picked: seq<Pair>)
    requires ValidPairs(input) && output.Length > 0 && histogram.Length == BINS
    modifies output, histogram
    ensures selectionError == 0
    ensures IsReduction(input, output.Length, offset, apply, output[..], picked)
  {
    NoDuplicatesCardinality(input);
    if |input| <= output.Length {
      CopyShort(input, output, offset, apply);
      return 0, input;
    }
    selectionError, picked := ReduceLong(input, output, offset, apply, histogram);
  }

  /** The single run over the whole input. */
  lemma WholeRun(input: seq<Pair>, runs: seq<Block>)
    requires runs == [Block(0, |input|)]
    ensures RunPositions(runs) == Interval(0, |input|) && PairsAt(input, RunPositions(runs)) == Members(input)
  {
    forall i: nat ensures i in RunPositions(runs) <==> i < |input| {
      if i < |input| { InsideBlock(runs, 0, i); }
    }
    WholePairs(input, runs);
  }

  lemma WholePairs(input: seq<Pair>, runs: seq<Block>)
    requires runs == [Block(0, |input|)]
    requires RunPositions(runs) == Interval(0, |input|)
    ensures PairsAt(input, RunPositions(runs)) == Members(input)
  {
    forall p | p in Members(input) ensures p in PairsAt(input, RunPositions(runs)) {
      var i :| 0 <= i < |input| && input[i] == p;
      assert i in RunPositions(runs);
    }
  }
}
