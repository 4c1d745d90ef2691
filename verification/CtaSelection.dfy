/** Row selection inside the fused kernel: segmented candidate storage with a lossless
    16-bit ID code and a bounded spill, the accept-or-flag decision, four radix rounds
    over shared state, and the interleaved emission of the selected IDs. */
module CtaSelection {
  import opened Arithmetic
  import opened Exactness
  import opened Words
  import opened WarpPrimitives
  import opened RadixSelect
  import opened Emission

  const SEGMENTS: nat := 8

  // ---------- segment-relative ID code ----------

  /** The segment that stores an ID: its bits [6:4]. */
  function SegmentOf(id: nat): (segment: nat)
    ensures segment < SEGMENTS
  {
    (id / 16) % SEGMENTS
  }

  /** `((id >> 7) << 4) | (id & 15)`, truncated to 16 bits. */
  function PackId(id: nat): (code: nat)
    ensures code < 0x1_0000
  {
    ((id / 128) * 16 + id % 16) % 0x1_0000
  }

  /** `((code >> 4) << 7) | (segment << 4) | (code & 15)`. */
  function UnpackId(code: nat, segment: nat): nat {
    (code / 16) * 128 + segment * 16 + code % 16
  }

  /** The code loses nothing exactly for IDs below 2^19, far above the largest context. */
  lemma PackRoundTrip(id: nat)
    ensures UnpackId(PackId(id), SegmentOf(id)) == id <==> id < 0x8_0000
  {
    var high, middle, low := id / 128, (id / 16) % 8, id % 16;
    assert id == high * 128 + middle * 16 + low;
    assert PackId(id) == (high % 0x1000) * 16 + low;
  }

  /** What the kernel stores for an ID, and what it reads back, on machine words. */
  function PackWord(id: Word): (code: Word)
    requires |id| == WORD_BITS
    ensures |code| == 16
  {
    Or(ShiftLeft(ShiftRight(id, 7), 4), And(id, Mask(WORD_BITS, 0, 4)))[..16]
  }

  function UnpackWord(code: Word, segment: Word): (id: Word)
    requires |code| == 16 && |segment| == WORD_BITS
    ensures |id| == WORD_BITS
  {
    var packed := code + Zeros(16);
    Or(Or(ShiftLeft(ShiftRight(packed, 4), 7), ShiftLeft(segment, 4)), And(packed, Mask(WORD_BITS, 0, 4)))
  }

  lemma PackedNumber(v: nat)
    ensures v % 16 + 16 * ((v / 128) % 0x1000) == PackId(v)
  {
    var high := v / 128;
    assert high == (high / 0x1000) * 0x1000 + high % 0x1000;
    QuotientAndRemainder(high * 16 + v % 16, 0x1_0000, high / 0x1000, (high % 0x1000) * 16 + v % 16);
  }

  lemma {:induction false} PackBits(id: Word)
    requires |id| == WORD_BITS
    ensures Value(PackWord(id)) == PackId(Value(id))
  {
    PowersOfTwo();
    PowerSum(4, 3, 16, 8);
    PowerSum(8, 4, 0x100, 16);
    assert PackWord(id) == id[..4] + id[7..][..12];
    TwoFields(PackWord(id), id[..4], id[7..][..12], 16);
    BitFields(id, 4, 16);
    BitFields(id, 7, 128);
    BitFields(id[7..], 12, 0x1000);
    PackedNumber(Value(id));
  }

  lemma {:induction false} UnpackedFields(code: Word, segment: Word)
    requires |code| == 16 && |segment| == WORD_BITS && segment[3..] == Zeros(WORD_BITS - 3)
    ensures UnpackWord(code, segment) == code[..4] + segment[..3] + (code[4..] + Zeros(13))
  {
    forall i | 3 <= i < WORD_BITS ensures !segment[i] {
      assert segment[3..][i - 3] == segment[i];
    }
  }

  /** A segment number fits three bits. */
  lemma {:induction false} SegmentBits(segment: Word)
    requires |segment| == WORD_BITS && Value(segment) < SEGMENTS
    ensures segment[3..] == Zeros(WORD_BITS - 3) && Value(segment[..3]) == Value(segment)
  {
    BitFields(segment, 3, 8);
    ZeroMeansZeros(segment[3..]);
  }

  lemma {:induction false} UnpackBits(code: Word, segment: Word)
    requires |code| == 16 && |segment| == WORD_BITS && Value(segment) < SEGMENTS
    ensures Value(UnpackWord(code, segment)) == UnpackId(Value(code), Value(segment))
  {
    PowersOfTwo();
    PowerSum(4, 3, 16, 8);
    SegmentBits(segment);
    BitFields(code, 4, 16);
    UnpackedFields(code, segment);
    ThreeFields(UnpackWord(code, segment), code[..4], segment[..3], code[4..] + Zeros(13), 16, 128);
    ValueOfPadded(0, code[4..], 13);
    assert Zeros(0) + code[4..] == code[4..];
  }

  /** The same law on the machine words the kernel shifts and masks. */
  lemma {:induction false} PackRoundTripBits(id: Word, segment: Word)
    requires |id| == |segment| == WORD_BITS && Value(segment) == SegmentOf(Value(id))
    ensures UnpackWord(PackWord(id), segment) == id <==> Value(id) < 0x8_0000
  {
    PackBits(id);
    UnpackBits(PackWord(id), segment);
    PackRoundTrip(Value(id));
    ValueIsInjective(UnpackWord(PackWord(id), segment), id);
  }

  // ---------- live positions ----------

  /** Positions number the segments' slots first, then the segments' spill entries. */
  function SlotRun(counts: seq<nat>, segmentCapacity: nat, s: nat): Block
    requires s < |counts|
  {
    Block(s * segmentCapacity, s * segmentCapacity + Min(counts[s], segmentCapacity))
  }

  function SpillRun(counts: seq<nat>, segmentCapacity: nat, spillCapacity: nat, s: nat): Block
    requires s < |counts|
  {
    var first := SEGMENTS * segmentCapacity + s * spillCapacity;
    Block(first, first + Max(0, counts[s] - segmentCapacity))
  }

  function LiveRuns(counts: seq<nat>, segmentCapacity: nat, spillCapacity: nat): (runs: seq<Block>)
    requires |counts| == SEGMENTS
    ensures |runs| == 2 * SEGMENTS
  {
    seq(2 * SEGMENTS, r requires 0 <= r < 2 * SEGMENTS =>
      RunOf(counts, segmentCapacity, spillCapacity, r))
  }

  /** Some segment published more candidates than its slots and spill can hold. */
  predicate Overflows(counts: seq<nat>, segmentCapacity: nat, spillCapacity: nat) {
    exists s :: 0 <= s < |counts| && counts[s] > segmentCapacity + spillCapacity
  }

  function RunOf(counts: seq<nat>, segmentCapacity: nat, spillCapacity: nat, r: nat): (run: Block)
    requires |counts| == SEGMENTS && r < 2 * SEGMENTS
  {
    if r < SEGMENTS then SlotRun(counts, segmentCapacity, r)
    else SpillRun(counts, segmentCapacity, spillCapacity, r - SEGMENTS)
  }

  lemma SlotRunEnds(counts: seq<nat>, segmentCapacity: nat, a: nat, b: nat)
    requires a < |counts| && a < b
    ensures SlotRun(counts, segmentCapacity, a).hi <= b * segmentCapacity
  {
    ScaledStep(a, b, segmentCapacity);
  }

  lemma SpillRunEnds(counts: seq<nat>, segmentCapacity: nat, spillCapacity: nat, a: nat, b: nat)
    requires a < |counts| && a < b && counts[a] <= segmentCapacity + spillCapacity
    ensures SpillRun(counts, segmentCapacity, spillCapacity, a).hi <= SEGMENTS * segmentCapacity + b * spillCapacity
  {
    ScaledStep(a, b, spillCapacity);
  }

  lemma RunsInOrder(counts: seq<nat>, segmentCapacity: nat, spillCapacity: nat, a: nat, b: nat)
    requires |counts| == SEGMENTS && !Overflows(counts, segmentCapacity, spillCapacity)
    requires a < b <= 2 * SEGMENTS
    ensures RunOf(counts, segmentCapacity, spillCapacity, a).hi <=
      if b < 2 * SEGMENTS then RunOf(counts, segmentCapacity, spillCapacity, b).lo
        else SEGMENTS * (segmentCapacity + spillCapacity)
  {
    if b < SEGMENTS {
      SlotRunEnds(counts, segmentCapacity, a, b);
    } else if a < SEGMENTS {
      SlotRunEnds(counts, segmentCapacity, a, SEGMENTS);
      assert 0 <= (b - SEGMENTS) * spillCapacity;
    } else {
      assert counts[a - SEGMENTS] <= segmentCapacity + spillCapacity;
      SpillRunEnds(counts, segmentCapacity, spillCapacity, a - SEGMENTS, b - SEGMENTS);
    }
  }

  /** Every published candidate of a segment that fits has its own position. */
  lemma LiveRunsAreDisjoint(counts: seq<nat>, segmentCapacity: nat, spillCapacity: nat)
    requires |counts| == SEGMENTS && !Overflows(counts, segmentCapacity, spillCapacity)
    ensures ValidBlocks(LiveRuns(counts, segmentCapacity, spillCapacity), SEGMENTS * (segmentCapacity + spillCapacity))
  {
    var runs := LiveRuns(counts, segmentCapacity, spillCapacity);
    forall a, b | 0 <= a < b < |runs| ensures runs[a].hi <= runs[b].lo {
      RunsInOrder(counts, segmentCapacity, spillCapacity, a, b);
    }
    forall r | 0 <= r < |runs| ensures runs[r].hi <= SEGMENTS * (segmentCapacity + spillCapacity) {
      RunsInOrder(counts, segmentCapacity, spillCapacity, r, 2 * SEGMENTS);
    }
  }

  /** How many of the first `n` segments' candidates went to the spill. */
  function SpilledFirst(counts: seq<nat>, segmentCapacity: nat, n: nat): nat
    requires n <= |counts|
  {
    if n == 0 then 0 else SpilledFirst(counts, segmentCapacity, n - 1) + Max(0, counts[n - 1] - segmentCapacity)
  }

  lemma {:induction false} SlotLengths(counts: seq<nat>, segmentCapacity: nat, spillCapacity: nat, n: nat)
    requires |counts| == SEGMENTS && n <= SEGMENTS
    ensures
      var runs := LiveRuns(counts, segmentCapacity, spillCapacity);
      TotalLength(runs[..n]) + SpilledFirst(counts, segmentCapacity, n) == SumFirst(counts, n)
  {
    if n > 0 {
      var runs := LiveRuns(counts, segmentCapacity, spillCapacity);
      SlotLengths(counts, segmentCapacity, spillCapacity, n - 1);
      assert runs[..n][..n - 1] == runs[..n - 1];
    }
  }

  lemma {:induction false} SpillLengths(counts: seq<nat>, segmentCapacity: nat, spillCapacity: nat, n: nat)
    requires |counts| == SEGMENTS && n <= SEGMENTS
    ensures
      var runs := LiveRuns(counts, segmentCapacity, spillCapacity);
      TotalLength(runs[..SEGMENTS + n]) == TotalLength(runs[..SEGMENTS]) + SpilledFirst(counts, segmentCapacity, n)
  {
    if n > 0 {
      var runs := LiveRuns(counts, segmentCapacity, spillCapacity);
      SpillLengths(counts, segmentCapacity, spillCapacity, n - 1);
      assert runs[..SEGMENTS + n][..SEGMENTS + n - 1] == runs[..SEGMENTS + n - 1];
    }
  }

  /** Accepted rows keep every published candidate: live positions number the counts. */
  lemma NothingDropped(counts: seq<nat>, segmentCapacity: nat, spillCapacity: nat)
    requires |counts| == SEGMENTS && !Overflows(counts, segmentCapacity, spillCapacity)
    ensures |RunPositions(LiveRuns(counts, segmentCapacity, spillCapacity))| == SumFirst(counts, SEGMENTS)
  {
    var runs := LiveRuns(counts, segmentCapacity, spillCapacity);
    LiveRunsAreDisjoint(counts, segmentCapacity, spillCapacity);
    RunCardinality(runs, SEGMENTS * (segmentCapacity + spillCapacity));
    SlotLengths(counts, segmentCapacity, spillCapacity, SEGMENTS);
    SpillLengths(counts, segmentCapacity, spillCapacity, SEGMENTS);
    assert runs[..SEGMENTS + SEGMENTS] == runs;
  }

  // ---------- the two slot scans ----------

  /** The flat scan visits every slot and tests its offset against the segment count. */
  predicate FlatScanVisits(counts: seq<nat>, segmentCapacity: nat, i: nat)
    requires |counts| == SEGMENTS && segmentCapacity > 0
  {
    i < SEGMENTS * segmentCapacity && i / segmentCapacity < SEGMENTS &&
      i % segmentCapacity < counts[i / segmentCapacity]
  }

  /** Both build variants of the scan visit exactly the live slots. */
  lemma ScansAgree(counts: seq<nat>, segmentCapacity: nat, spillCapacity: nat, i: nat)
    requires |counts| == SEGMENTS && segmentCapacity > 0
    ensures FlatScanVisits(counts, segmentCapacity, i) <==>
      InRuns(LiveRuns(counts, segmentCapacity, spillCapacity)[..SEGMENTS], i)
  {
    var slots := LiveRuns(counts, segmentCapacity, spillCapacity)[..SEGMENTS];
    var s, offset := i / segmentCapacity, i % segmentCapacity;
    assert i == s * segmentCapacity + offset;
    if FlatScanVisits(counts, segmentCapacity, i) {
      InsideBlock(slots, s, i);
    }
    if InRuns(slots, i) {
      var r :| 0 <= r < |slots| && InBlock(slots, r, i);
      QuotientAndRemainder(i, segmentCapacity, r, i - r * segmentCapacity);
      ScaledStep(r, SEGMENTS, segmentCapacity);
    }
  }

  /** The slot scan of either build variant, together with the spill entries, is exactly
      the live positions. */
  lemma ScanIsLive(counts: seq<nat>, segmentCapacity: nat, spillCapacity: nat)
    requires |counts| == SEGMENTS && !Overflows(counts, segmentCapacity, spillCapacity)
    ensures
      var runs := LiveRuns(counts, segmentCapacity, spillCapacity);
      RunPositions(runs[..SEGMENTS]) !! RunPositions(runs[SEGMENTS..]) &&
      RunPositions(runs) == RunPositions(runs[..SEGMENTS]) + RunPositions(runs[SEGMENTS..])
  {
    var runs := LiveRuns(counts, segmentCapacity, spillCapacity);
    LiveRunsAreDisjoint(counts, segmentCapacity, spillCapacity);
    assert runs == runs[..SEGMENTS] + runs[SEGMENTS..];
    RunsConcat(runs[..SEGMENTS], runs[SEGMENTS..], SEGMENTS * (segmentCapacity + spillCapacity));
  }

  /** The positions the chosen slot scan visits. */
  function SlotScan(counts: seq<nat>, segmentCapacity: nat, spillCapacity: nat, segmented: bool): (positions: set<nat>)
    requires |counts| == SEGMENTS && segmentCapacity > 0
    ensures positions == RunPositions(LiveRuns(counts, segmentCapacity, spillCapacity)[..SEGMENTS])
  {
    if segmented then RunPositions(LiveRuns(counts, segmentCapacity, spillCapacity)[..SEGMENTS])
    else
      var flat: set<nat> :=
        set i | i in Interval(0, SEGMENTS * segmentCapacity) && FlatScanVisits(counts, segmentCapacity, i);
      FlatScanIsSegmented(counts, segmentCapacity, spillCapacity, flat);
      flat
  }

  lemma FlatScanIsSegmented(counts: seq<nat>, segmentCapacity: nat, spillCapacity: nat, flat: set<nat>)
    requires |counts| == SEGMENTS && segmentCapacity > 0
    requires forall i: nat :: i in flat <==> FlatScanVisits(counts, segmentCapacity, i)
    ensures flat == RunPositions(LiveRuns(counts, segmentCapacity, spillCapacity)[..SEGMENTS])
  {
    forall i: nat
      ensures i in flat <==> i in RunPositions(LiveRuns(counts, segmentCapacity, spillCapacity)[..SEGMENTS])
    {
      ScansAgree(counts, segmentCapacity, spillCapacity, i);
    }
  }

  ghost predicate RowAccepted(counts: seq<nat>, segmentCapacity: nat, spillCapacity: nat, k: nat)
    requires |counts| == SEGMENTS
  {
    !Overflows(counts, segmentCapacity, spillCapacity) && SumFirst(counts, SEGMENTS) >= k
  }

  ghost predicate CandidatesPublished(cands: seq<Pair>, live: set<nat>) {
    ValidKeys(Keys(cands), live) && DistinctPairs(cands, live)
  }

  /** The four radix rounds; both slot scans lead to the same threshold and rank. */
  method ThresholdOf(
      histogram: array<nat>, cands: seq<Pair>, counts: seq<nat>, segmentCapacity: nat, spillCapacity: nat, k: nat,
      segmented: bool)
    returns (threshold: nat, rank: nat)
    requires |counts| == SEGMENTS && segmentCapacity > 0 && histogram.Length == BINS
    requires RowAccepted(counts, segmentCapacity, spillCapacity, k) && k > 0
    requires CandidatesPublished(cands, RunPositions(LiveRuns(counts, segmentCapacity, spillCapacity)))
    modifies histogram
    ensures IsKthLargest(
      Keys(cands), RunPositions(LiveRuns(counts, segmentCapacity, spillCapacity)), k, threshold, rank)
  {
    var runs := LiveRuns(counts, segmentCapacity, spillCapacity);
    var slots := SlotScan(counts, segmentCapacity, spillCapacity, segmented);
    ScanIsLive(counts, segmentCapacity, spillCapacity);
    NothingDropped(counts, segmentCapacity, spillCapacity);
    threshold, rank :=
      RadixRounds(histogram, Keys(cands), slots, RunPositions(runs[SEGMENTS..]), RunPositions(runs), k);
  }

  /** The slots' candidates: score as stored, ID rebuilt from its code and its segment. */
  function Decoded(scores: seq<nat>, indices: seq<nat>, segmentCapacity: nat): (pairs: seq<Pair>)
    requires |scores| == |indices| && segmentCapacity > 0
    ensures |pairs| == |scores|
  {
    seq(|scores|, i requires 0 <= i < |scores| => Pair(scores[i], UnpackId(indices[i], i / segmentCapacity)))
  }

  /** One row's share of the CTA scratch: compact slots, published counts, the row's
      spill slice, and the shared variables of the selection. */
  class SelectionScratch {
    const segmentCapacity: nat
    const spillCapacity: nat
    const scores: array<nat>
    const indices: array<nat>
    const counts: array<nat>
    const spill: array<Pair>
    const histogram: array<nat>
    var threshold: nat
    var rank: nat
    var failed: bool
    var greaterCounter: nat
    var equalCounter: nat
    var spillCount: nat

    ghost predicate Valid() {
      && segmentCapacity > 0
      && scores.Length == indices.Length == SEGMENTS * segmentCapacity
      && spill.Length == SEGMENTS * spillCapacity
      && counts.Length == SEGMENTS && histogram.Length == BINS
      && scores != indices && scores != counts && indices != counts
      && histogram != scores && histogram != indices && histogram != counts
    }

    constructor (segmentCapacity: nat, spillCapacity: nat)
      requires segmentCapacity > 0
      ensures Valid() && this.segmentCapacity == segmentCapacity && this.spillCapacity == spillCapacity
      ensures fresh(scores) && fresh(indices) && fresh(counts) && fresh(spill) && fresh(histogram)
    {
      this.segmentCapacity := segmentCapacity;
      this.spillCapacity := spillCapacity;
      scores := new nat[SEGMENTS * segmentCapacity];
      indices := new nat[SEGMENTS * segmentCapacity];
      counts := new nat[SEGMENTS];
      spill := new Pair[SEGMENTS * spillCapacity];
      histogram := new nat[BINS];
    }

    method StorePair(i: nat, pair: Pair)
      requires Valid() && i < scores.Length
      modifies scores, indices
      ensures scores[..] == old(scores[..])[i := pair.key] && indices[..] == old(indices[..])[i := PackId(pair.id)]
    {
      scores[i] := pair.key;
      indices[i] := PackId(pair.id);
    }

    /** What each position holds: the decoded slot, or the full spill entry. */
    function Candidates(): (cands: seq<Pair>)
      requires Valid()
      reads scores, indices, spill
    {
      Decoded(scores[..], indices[..], segmentCapacity) + spill[..]
    }

    function Runs(): (runs: seq<Block>)
      requires Valid()
      reads counts
    {
      LiveRuns(counts[..], segmentCapacity, spillCapacity)
    }

    ghost predicate Accepts(k: nat)
      requires Valid()
      reads counts
    {
      RowAccepted(counts[..], segmentCapacity, spillCapacity, k)
    }

    /** What the producer owes an accepted row: distinct candidates with 32-bit keys. */
    ghost predicate Published()
      requires Valid()
      reads scores, indices, spill, counts
    {
      CandidatesPublished(Candidates(), RunPositions(Runs()))
    }

    /** The accept-or-flag decision from the published counts alone. */
    method Decide(k: nat)
      requires Valid()
      modifies this
      ensures failed <==> !Accepts(k)
      ensures threshold == 0 && rank == k && greaterCounter == 0 && equalCounter == 0
      ensures spillCount == SpilledFirst(counts[..], segmentCapacity, SEGMENTS)
    {
      var total, spills, overflow := 0, 0, false;
      for s := 0 to SEGMENTS
        invariant total == SumFirst(counts[..], s) && spills == SpilledFirst(counts[..], segmentCapacity, s)
        invariant overflow <==> exists c :: 0 <= c < s && counts[c] > segmentCapacity + spillCapacity
      {
        var count := counts[s];
        total := total + count;
        overflow := overflow || count > segmentCapacity + spillCapacity;
        spills := spills + if count > segmentCapacity then count - segmentCapacity else 0;
      }
      failed := overflow || total < k;
      threshold, rank, greaterCounter, equalCounter, spillCount := 0, k, 0, 0, spills;
    }

    /** The four radix rounds; both slot scans lead to the same threshold and rank. */
    method SelectThreshold(k: nat, segmented: bool)
      requires Valid() && Published() && Accepts(k) && k > 0
      modifies this`threshold, this`rank, histogram
      ensures IsKthLargest(Keys(Candidates()), RunPositions(Runs()), k, threshold, rank)
    {
      ghost var cands := Candidates();
      threshold, rank := ThresholdOf(histogram, Candidates(), counts[..], segmentCapacity, spillCapacity, k, segmented);
      assert Candidates() == cands;
    }

    /** Accept or flag one row, and write its IDs when accepted. */
    method SelectRow(k: nat, start: nat, end: nat, segmented: bool, output: array<int>)
      returns (failure: nat, ghost picked: seq<Pair>)
      requires Valid() && k > 0 && output.Length == k
      requires Accepts(k) ==> Published()
      modifies this, histogram, output
      ensures Max(0, end - start) <= k ==>
        failure == 0 && forall j :: 0 <= j < k ==> output[j] == if j < end - start then start + j else -1
      ensures Max(0, end - start) > k ==> failure == if old(Accepts(k)) then 0 else 1
      ensures failure != 0 ==> forall j :: 0 <= j < k ==> output[j] == -1
      ensures Max(0, end - start) > k && failure == 0 ==>
        IsSelection(old(PairsAt(Candidates(), RunPositions(Runs()))), k, (p: Pair) => p.id, output[..], picked)
    {
      var valid := if end > start then end - start else 0;
      picked := [];
      if valid <= k {
        for i := 0 to k
          invariant forall j :: 0 <= j < i ==> output[j] == if j < valid then start + j else -1
        {
          output[i] := if i < valid then start + i else -1;
        }
        return 0, [];
      }
      ghost var cands, published := Candidates(), counts[..];
      Decide(k);
      assert Candidates() == cands && counts[..] == published;
      if failed {
        for i := 0 to k
          invariant forall j :: 0 <= j < i ==> output[j] == -1
        {
          output[i] := -1;
        }
        return 1, [];
      }
      SelectThreshold(k, segmented);
      assert Candidates() == cands && counts[..] == published;
      LiveRunsAreDisjoint(published, segmentCapacity, spillCapacity);
      var greater, equal;
      greater, equal, picked := EmitSelected(Candidates(), (p: Pair) => p.id, Runs(), threshold, rank, k, output);
      greaterCounter, equalCounter := greater, equal;
      failure := 0;
    }
  }
}
