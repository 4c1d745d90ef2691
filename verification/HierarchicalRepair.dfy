/** Exact repair of flagged rows: each 16K chunk of the row's range is reduced to a local
    Top-k, which is folded into an in-place accumulator and committed at the end only if
    no step reported an error. */
module HierarchicalRepair {
  import opened Arithmetic
  import opened Exactness
  import opened RadixSelect
  import opened WarpPrimitives
  import opened PairReducer

  const REPAIR_SEGMENTS: nat := 16

  // ---------- pure fold ----------

  function ShiftList(list: seq<Pair>, offset: nat): (shifted: seq<Pair>)
    ensures |shifted| == |list|
  {
    seq(|list|, i requires 0 <= i < |list| => AddLogicalOffset(list[i], offset))
  }

  ghost predicate ShiftFits(list: seq<Pair>, offset: nat) {
    forall i :: 0 <= i < |list| ==> list[i].id + offset < KEY_SPACE
  }

  lemma ShiftKeepsDistinct(list: seq<Pair>, offset: nat)
    requires NoDuplicates(list) && ShiftFits(list, offset)
    ensures NoDuplicates(ShiftList(list, offset))
    ensures |Members(ShiftList(list, offset))| == |list|
    ensures forall i :: 0 <= i < |list| ==> ShiftList(list, offset)[i] == Pair(list[i].key, list[i].id + offset)
  {
    NoDuplicatesCardinality(ShiftList(list, offset));
  }

  lemma ShiftIsInjective(p: Pair, q: Pair, offset: nat)
    requires p.id + offset < KEY_SPACE && q.id + offset < KEY_SPACE
    ensures AddLogicalOffset(p, offset) == AddLogicalOffset(q, offset) <==> p == q
  {
  }

  /** Whether a pair is among the shifted list is decided before the shift. */
  lemma {:induction false} ShiftMembership(list: seq<Pair>, offset: nat, p: Pair)
    requires ShiftFits(list, offset) && p.id + offset < KEY_SPACE
    ensures AddLogicalOffset(p, offset) in ShiftList(list, offset) <==> p in list
  {
    if p in list {
      var i :| 0 <= i < |list| && list[i] == p;
      assert ShiftList(list, offset)[i] == AddLogicalOffset(p, offset);
    }
    if AddLogicalOffset(p, offset) in ShiftList(list, offset) {
      var i :| 0 <= i < |list| && ShiftList(list, offset)[i] == AddLogicalOffset(p, offset);
      ShiftIsInjective(list[i], p, offset);
    }
  }

  /** Moving every ID of a chunk by its offset moves its Top-k along. */
  lemma ShiftedTopK(list: seq<Pair>, picked: seq<Pair>, offset: nat, k: nat)
    requires NoDuplicates(list) && NoDuplicates(picked) && ShiftFits(list, offset)
    requires IsTopK(Members(list), Members(picked), k)
    ensures NoDuplicates(ShiftList(list, offset)) && NoDuplicates(ShiftList(picked, offset))
    ensures IsTopK(Members(ShiftList(list, offset)), Members(ShiftList(picked, offset)), k)
  {
    var list', picked' := ShiftList(list, offset), ShiftList(picked, offset);
    forall j | 0 <= j < |picked| ensures picked[j] in list && picked[j].id + offset < KEY_SPACE {
      assert picked[j] in Members(picked);
    }
    NoDuplicatesCardinality(list);
    NoDuplicatesCardinality(picked);
    ShiftKeepsDistinct(list, offset);
    ShiftKeepsDistinct(picked, offset);
    forall p | p in Members(picked') ensures p in Members(list') {
      var j :| 0 <= j < |picked| && picked'[j] == p;
      ShiftMembership(list, offset, picked[j]);
    }
    forall p, q | p in Members(picked') && q in Members(list') && q !in Members(picked') ensures q.key <= p.key {
      ShiftedLoser(list, picked, offset, k, p, q);
    }
  }

  lemma ShiftedLoser(list: seq<Pair>, picked: seq<Pair>, offset: nat, k: nat, p: Pair, q: Pair)
    requires ShiftFits(list, offset) && ShiftFits(picked, offset) && IsTopK(Members(list), Members(picked), k)
    requires p in ShiftList(picked, offset) && q in ShiftList(list, offset) && q !in ShiftList(picked, offset)
    ensures q.key <= p.key
  {
    var j :| 0 <= j < |picked| && ShiftList(picked, offset)[j] == p;
    var i :| 0 <= i < |list| && ShiftList(list, offset)[i] == q;
    ShiftMembership(picked, offset, list[i]);
    assert list[i] in Members(list) && picked[j] in Members(picked);
  }

  /** The accumulator's live prefix is an exact Top-k of every pair seen so far. */
  ghost predicate Accumulated(acc: seq<Pair>, count: nat, seen: set<Pair>, k: nat) {
    && count == Min(k, |seen|) <= |acc| && NoDuplicates(acc[..count])
    && IsTopK(seen, Members(acc[..count]), k)
    && forall p :: p in seen ==> 0 < p.key < KEY_SPACE
  }

  /** What the merge kernel loads: the accumulator's pairs, then the chunk's. */
  function Combined(acc: seq<Pair>, count: nat, local: seq<Pair>, localCount: nat): seq<Pair>
    requires count <= |acc| && localCount <= |local|
  {
    acc[..count] + local[..localCount]
  }

  lemma CombinedIsValid(
      acc: seq<Pair>, count: nat, seen: set<Pair>, local: seq<Pair>, localCount: nat, fresh': set<Pair>, k: nat)
    requires Accumulated(acc, count, seen, k) && Accumulated(local, localCount, fresh', k) && seen !! fresh'
    ensures ValidPairs(Combined(acc, count, local, localCount))
    ensures Members(Combined(acc, count, local, localCount)) == Members(acc[..count]) + Members(local[..localCount])
  {
    var a, b := acc[..count], local[..localCount];
    forall i | 0 <= i < |a| ensures a[i] in seen {
      assert a[i] in Members(a);
    }
    forall i | 0 <= i < |b| ensures b[i] in fresh' {
      assert b[i] in Members(b);
    }
  }

  lemma ReductionPrefix(input: seq<Pair>, k: nat, out: seq<Pair>, picked: seq<Pair>)
    requires IsReduction(input, k, 0, false, out, picked)
    ensures out[..|picked|] == picked
  {
  }

  /** Folding one chunk: reducing the two Top-ks is a Top-k of everything seen. */
  lemma FoldKeepsAccumulated(
      acc: seq<Pair>, count: nat, seen: set<Pair>, local: seq<Pair>, localCount: nat, added: set<Pair>, k: nat,
      acc': seq<Pair>, picked: seq<Pair>)
    requires Accumulated(acc, count, seen, k) && Accumulated(local, localCount, added, k) && seen !! added
    requires IsReduction(Combined(acc, count, local, localCount), k, 0, false, acc', picked)
    ensures Accumulated(acc', Min(count + localCount, k), seen + added, k)
  {
    var a, b := Members(acc[..count]), Members(local[..localCount]);
    ReductionPrefix(Combined(acc, count, local, localCount), k, acc', picked);
    CombinedIsValid(acc, count, seen, local, localCount, added, k);
    assert IsTopK(a + b, Members(picked), k);
    MergeTopK(seen, added, a, b, Members(picked), k);
    NoDuplicatesCardinality(picked);
    assert |seen + added| == |seen| + |added|;
  }

  // ---------- published chunk candidates ----------

  ghost predicate SegmentsFit(counts: seq<nat>, cap: nat) {
    |counts| == REPAIR_SEGMENTS && forall s :: 0 <= s < |counts| ==> counts[s] <= cap
  }

  function Segment(pairs: seq<Pair>, counts: seq<nat>, cap: nat, s: nat): (segment: seq<Pair>)
    requires s < |counts| && s * cap + counts[s] <= |pairs|
    ensures |segment| == counts[s]
  {
    pairs[s * cap..s * cap + counts[s]]
  }

  /** The segments back to back, as the reducer gathers them by their offsets. */
  function Gathered(pairs: seq<Pair>, counts: seq<nat>, cap: nat, n: nat): (list: seq<Pair>)
    requires SegmentsFit(counts, cap) && n <= REPAIR_SEGMENTS && |pairs| == REPAIR_SEGMENTS * cap
    ensures |list| == SumFirst(counts, n)
  {
    if n == 0 then []
    else
      ScaledStep(n - 1, REPAIR_SEGMENTS, cap);
      Gathered(pairs, counts, cap, n - 1) + Segment(pairs, counts, cap, n - 1)
  }

  /** The published counts account for the chunk's range and fit the segments. */
  ghost predicate Consistent(counts: seq<nat>, cap: nat, start: int, end: int) {
    SegmentsFit(counts, cap) && SumFirst(counts, REPAIR_SEGMENTS) == end - start
  }

  lemma {:induction false} SumOfFitting(counts: seq<nat>, cap: nat, n: nat)
    requires SegmentsFit(counts, cap) && n <= |counts|
    ensures SumFirst(counts, n) <= n * cap
  {
    if n > 0 {
      SumOfFitting(counts, cap, n - 1);
      assert n * cap == (n - 1) * cap + cap;
    }
  }

  lemma ShiftedKeys(list: seq<Pair>, offset: nat)
    requires ValidPairs(list) && ShiftFits(list, offset)
    ensures forall p :: p in Members(ShiftList(list, offset)) ==> 0 < p.key < KEY_SPACE
  {
    forall p | p in Members(ShiftList(list, offset)) ensures 0 < p.key < KEY_SPACE {
      var i :| 0 <= i < |list| && ShiftList(list, offset)[i] == p;
    }
  }

  lemma {:induction false} ShiftedPrefix(
      list: seq<Pair>, k: nat, offset: nat, local: seq<Pair>, picked: seq<Pair>)
    requires IsReduction(list, k, offset, true, local, picked)
    ensures local[..|picked|] == ShiftList(picked, offset)
  {
    var front, shifted := local[..|picked|], ShiftList(picked, offset);
    forall j | 0 <= j < |picked| ensures front[j] == shifted[j] {
      assert local[j] == AddLogicalOffset(picked[j], offset);
    }
  }

  lemma LocalIsAccumulated(list: seq<Pair>, k: nat, offset: nat, local: seq<Pair>, picked: seq<Pair>)
    requires ValidPairs(list) && ShiftFits(list, offset) && IsReduction(list, k, offset, true, local, picked)
    ensures Accumulated(local, Min(|list|, k), Members(ShiftList(list, offset)), k)
  {
    ShiftedTopK(list, picked, offset, k);
    ShiftKeepsDistinct(list, offset);
    ShiftedKeys(list, offset);
    ShiftedPrefix(list, k, offset, local, picked);
  }

  lemma NothingAccumulated(acc: seq<Pair>, k: nat)
    ensures Accumulated(acc, 0, {}, k)
  {
    assert Members(acc[..0]) == {};
  }

  /** A chunk's published pairs: valid, shiftable, and disjoint from what was seen. */
  ghost predicate ChunkPairs(list: seq<Pair>, offset: nat, seen: set<Pair>) {
    ValidPairs(list) && ShiftFits(list, offset) && seen !! Members(ShiftList(list, offset))
  }

  lemma ChunkCombines(
      acc: seq<Pair>, count: nat, seen: set<Pair>, local: seq<Pair>, list: seq<Pair>, offset: nat, k: nat,
      localPicked: seq<Pair>)
    requires Accumulated(acc, count, seen, k) && ChunkPairs(list, offset, seen)
    requires IsReduction(list, k, offset, true, local, localPicked)
    ensures Accumulated(local, Min(|list|, k), Members(ShiftList(list, offset)), k)
    ensures ValidPairs(Combined(acc, count, local, Min(|list|, k)))
  {
    LocalIsAccumulated(list, k, offset, local, localPicked);
    CombinedIsValid(acc, count, seen, local, Min(|list|, k), Members(ShiftList(list, offset)), k);
  }

  lemma ChunkFolds(
      acc: seq<Pair>, count: nat, seen: set<Pair>, local: seq<Pair>, list: seq<Pair>, offset: nat, k: nat,
      localPicked: seq<Pair>,
      acc': seq<Pair>, picked: seq<Pair>)
    requires Accumulated(acc, count, seen, k) && ChunkPairs(list, offset, seen)
    requires IsReduction(list, k, offset, true, local, localPicked)
    requires IsReduction(Combined(acc, count, local, Min(|list|, k)), k, 0, false, acc', picked)
    ensures Accumulated(acc', Min(count + Min(|list|, k), k), seen + Members(ShiftList(list, offset)), k)
  {
    ChunkCombines(acc, count, seen, local, list, offset, k, localPicked);
    FoldKeepsAccumulated(acc, count, seen, local, Min(|list|, k), Members(ShiftList(list, offset)), k, acc', picked);
  }

  function IfSet(flag: nat, whenSet: nat, otherwise: nat): nat {
    if flag != 0 then whenSet else otherwise
  }

  /** Whatever a producer published for one chunk of one row, with the chunk's range. */
  datatype PublishedChunk = PublishedChunk(pairs: seq<Pair>, counts: seq<nat>, start: int, end: int, offset: nat) {
    ghost predicate IsConsistent(cap: nat) {
      Consistent(counts, cap, start, end)
    }

    ghost function List(cap: nat): seq<Pair> {
      if SegmentsFit(counts, cap) && |pairs| == REPAIR_SEGMENTS * cap then Gathered(pairs, counts, cap, REPAIR_SEGMENTS)
      else []
    }
  }

  ghost predicate AllConsistent(chunks: seq<PublishedChunk>, cap: nat, n: nat)
    requires n <= |chunks|
  {
    forall c :: 0 <= c < n ==> chunks[c].IsConsistent(cap)
  }

  /** Every (shifted) pair of the consistent chunks among the first n. */
  ghost function SeenPairs(chunks: seq<PublishedChunk>, cap: nat, n: nat): set<Pair>
    requires n <= |chunks|
  {
    if n == 0 then {}
    else
      SeenPairs(chunks, cap, n - 1) +
      if chunks[n - 1].IsConsistent(cap) then Members(ShiftList(chunks[n - 1].List(cap), chunks[n - 1].offset)) else {}
  }

  ghost predicate ChunksWellFormed(chunks: seq<PublishedChunk>, cap: nat) {
    forall c :: 0 <= c < |chunks| ==>
      |chunks[c].pairs| == REPAIR_SEGMENTS * cap && |chunks[c].counts| == REPAIR_SEGMENTS &&
      (chunks[c].IsConsistent(cap) ==> ChunkPairs(chunks[c].List(cap), chunks[c].offset, SeenPairs(chunks, cap, c)))
  }

  lemma AllConsistentStep(chunks: seq<PublishedChunk>, cap: nat, c: nat)
    requires c < |chunks|
    ensures AllConsistent(chunks, cap, c + 1) <==> AllConsistent(chunks, cap, c) && chunks[c].IsConsistent(cap)
    ensures SeenPairs(chunks, cap, c + 1) == SeenPairs(chunks, cap, c) +
      if chunks[c].IsConsistent(cap) then Members(ShiftList(chunks[c].List(cap), chunks[c].offset)) else {}
  {
  }

  lemma AccumulatedRow(acc: seq<Pair>, count: nat, seen: set<Pair>, k: nat)
    requires |acc| == k && Accumulated(acc, count, seen, k)
    ensures count == k <==> |seen| >= k
    ensures count == k ==> NoDuplicates(acc) && IsTopK(seen, Members(acc), k)
  {
    assert acc[..k] == acc;
  }

  /** When a row's repair is committed. */
  ghost predicate Commits(failure: nat, chunks: seq<PublishedChunk>, cap: nat, k: nat) {
    failure != 0 && AllConsistent(chunks, cap, |chunks|) && |SeenPairs(chunks, cap, |chunks|)| >= k
  }

  /** One query row's slices of the repair tensors. The producer's slots, the local result
      and the accumulator are workspaces reused by every chunk and every call. */
  class RepairRow {
    const segmentCapacity: nat
    const candidatePairs: array<Pair>
    const segmentCounts: array<nat>
    const localPairs: array<Pair>
    const accumulatorPairs: array<Pair>
    const output: array<int>
    const histogram: array<nat>
    var localCount: nat
    var accumulatorCount: nat
    var error: nat
    var failure: nat

    ghost predicate Valid(k: nat) {
      && k > 0 && localPairs.Length == accumulatorPairs.Length == output.Length == k
      && candidatePairs.Length == REPAIR_SEGMENTS * segmentCapacity
      && segmentCounts.Length == REPAIR_SEGMENTS && histogram.Length == BINS
      && localPairs != accumulatorPairs && candidatePairs != localPairs && candidatePairs != accumulatorPairs
      && histogram != segmentCounts
    }

    /** Allocates the row's slices; their contents are arbitrary. */
    constructor (k: nat, segmentCapacity: nat)
      requires k > 0
      ensures Valid(k) && this.segmentCapacity == segmentCapacity
      ensures fresh(candidatePairs) && fresh(segmentCounts) && fresh(localPairs) && fresh(accumulatorPairs)
      ensures fresh(output) && fresh(histogram)
    {
      this.segmentCapacity := segmentCapacity;
      candidatePairs := new Pair[REPAIR_SEGMENTS * segmentCapacity];
      segmentCounts := new nat[REPAIR_SEGMENTS];
      localPairs := new Pair[k];
      accumulatorPairs := new Pair[k];
      output := new int[k];
      histogram := new nat[BINS];
    }

    /** Two rows share no storage. */
    ghost predicate Apart(other: RepairRow) {
      && this != other && output != other.output
      && candidatePairs != other.candidatePairs && candidatePairs != other.localPairs
      && candidatePairs != other.accumulatorPairs && localPairs != other.localPairs
      && localPairs != other.accumulatorPairs && accumulatorPairs != other.accumulatorPairs
      && localPairs != other.candidatePairs && accumulatorPairs != other.candidatePairs
      && accumulatorPairs != other.localPairs
      && segmentCounts != other.segmentCounts && segmentCounts != other.histogram
      && histogram != other.segmentCounts && histogram != other.histogram
    }

    /** Reduce the published chunk to its local Top-k, or record why it cannot be. */
    method LocalTopK(k: nat, start: int, end: int, offset: nat, firstChunk: bool) returns (ghost picked: seq<Pair>)
      requires Valid(k)
      requires failure != 0 && Consistent(segmentCounts[..], segmentCapacity, start, end) ==>
        ValidPairs(Gathered(candidatePairs[..], segmentCounts[..], segmentCapacity, REPAIR_SEGMENTS))
      modifies this`error, this`localCount, localPairs, histogram
      ensures failure == 0 ==> error == old(error) && localCount == old(localCount)
      ensures failure != 0 ==>
        error == (if !Consistent(segmentCounts[..], segmentCapacity, start, end) then 1 else if firstChunk then 0
          else old(error))
      ensures failure != 0 && error == 0 ==>
        var list := Gathered(candidatePairs[..], segmentCounts[..], segmentCapacity, REPAIR_SEGMENTS);
        localCount == Min(|list|, k) && IsReduction(list, k, offset, true, localPairs[..], picked)
    {
      picked := [];
      if failure == 0 {
        return;
      }
      if firstChunk {
        error := 0;
      }
      var total, maximum := 0, 0;
      for s := 0 to REPAIR_SEGMENTS
        invariant total == SumFirst(segmentCounts[..], s)
        invariant forall t :: 0 <= t < s ==> segmentCounts[t] <= maximum
        invariant maximum == 0 || exists t :: 0 <= t < s && segmentCounts[t] == maximum
      {
        total := total + segmentCounts[s];
        maximum := if segmentCounts[s] > maximum then segmentCounts[s] else maximum;
      }
      if maximum <= segmentCapacity {
        SumOfFitting(segmentCounts[..], segmentCapacity, REPAIR_SEGMENTS);
      }
      if total != end - start || maximum > segmentCapacity || total > REPAIR_SEGMENTS * segmentCapacity {
        error := 1;
        localCount := 0;
      }
      if maximum > segmentCapacity || total > REPAIR_SEGMENTS * segmentCapacity || error != 0 {
        return;
      }
      var list := Gathered(candidatePairs[..], segmentCounts[..], segmentCapacity, REPAIR_SEGMENTS);
      var selectionError;
      selectionError, picked := SelectTopKPairs(list, localPairs, offset, true, histogram);
      error := IfSet(selectionError, 2, error);
      localCount := IfSet(selectionError, 0, Min(total, k));
    }

    /** Fold the local Top-k into the accumulator, in place. */
    method Merge(k: nat, firstChunk: bool) returns (ghost picked: seq<Pair>)
      requires Valid(k)
      requires failure != 0 && error == 0 ==> localCount <= k && (firstChunk || accumulatorCount <= k)
      requires failure != 0 && error == 0 ==>
        var count := if firstChunk then 0 else accumulatorCount;
        ValidPairs(Combined(accumulatorPairs[..], count, localPairs[..], localCount))
      modifies this`error, this`accumulatorCount, accumulatorPairs, histogram
      ensures error == old(error)
      ensures failure == 0 || error != 0 ==>
        accumulatorCount == old(accumulatorCount) && accumulatorPairs[..] == old(accumulatorPairs[..])
      ensures failure != 0 && error == 0 ==>
        var count := if firstChunk then 0 else old(accumulatorCount);
        accumulatorCount == Min(count + localCount, k) &&
        IsReduction(Combined(old(accumulatorPairs[..]), count, localPairs[..], localCount), k, 0, false,
          accumulatorPairs[..], picked)
    {
      picked := [];
      if failure == 0 || error != 0 {
        return;
      }
      var count := if firstChunk then 0 else accumulatorCount;
      var list := Combined(accumulatorPairs[..], count, localPairs[..], localCount);
      var selectionError;
      selectionError, picked := SelectTopKPairs(list, accumulatorPairs, 0, false, histogram);
      error := IfSet(selectionError, 3, error);
      accumulatorCount := IfSet(selectionError, accumulatorCount, Min(count + localCount, k));
    }

    /** Commit a fully repaired row; leave anything else as it was. */
    method FinalizeRepair(k: nat)
      requires Valid(k)
      modifies this`failure, output
      ensures old(failure) != 0 && error == 0 && accumulatorCount == k ==>
        failure == 0 && forall j :: 0 <= j < k ==> output[j] == accumulatorPairs[j].id
      ensures !(old(failure) != 0 && error == 0 && accumulatorCount == k) ==>
        failure == old(failure) && output[..] == old(output[..])
    {
      if failure == 0 || error != 0 || accumulatorCount != k {
        return;
      }
      for j := 0 to k
        invariant forall i :: 0 <= i < j ==> output[i] == accumulatorPairs[i].id
      {
        output[j] := accumulatorPairs[j].id;
      }
      failure := 0;
    }

    /** A flagged row's state between chunks: the error flag records whether every chunk so
        far was consistent, and if so the accumulator is a Top-k of all pairs seen. */
    ghost predicate FoldInvariant(k: nat, seen: set<Pair>, ok: bool)
      reads this, accumulatorPairs
    {
      failure != 0 ==> (error == 0 <==> ok) && (ok ==> Accumulated(accumulatorPairs[..], accumulatorCount, seen, k))
    }

    /** One chunk of the fold: local reduction, then merge. The first chunk starts from
        nothing, whatever the workspaces held. `list` names the published pairs. */
    method RepairChunk(
        k: nat, start: int, end: int, offset: nat, firstChunk: bool, ghost list: seq<Pair>, ghost seen: set<Pair>,
        ghost ok: bool)
      requires Valid(k)
      requires if firstChunk then seen == {} && ok else FoldInvariant(k, seen, ok)
      requires failure != 0 && Consistent(segmentCounts[..], segmentCapacity, start, end) ==>
        list == Gathered(candidatePairs[..], segmentCounts[..], segmentCapacity, REPAIR_SEGMENTS) &&
        ChunkPairs(list, offset, seen)
      modifies this`error, this`localCount, this`accumulatorCount, localPairs, accumulatorPairs, histogram
      ensures Consistent(segmentCounts[..], segmentCapacity, start, end) ==>
        FoldInvariant(k, seen + Members(ShiftList(list, offset)), ok)
      ensures !Consistent(segmentCounts[..], segmentCapacity, start, end) ==> FoldInvariant(k, seen, false)
    {
      NothingAccumulated(accumulatorPairs[..], k);
      ghost var localPicked := LocalTopK(k, start, end, offset, firstChunk);
      FoldLocal(k, firstChunk, offset, list, seen, localPicked);
    }

    /** Merge a chunk's local Top-k into the accumulator. */
    method FoldLocal(
        k: nat, firstChunk: bool, offset: nat, ghost list: seq<Pair>, ghost seen: set<Pair>,
        ghost localPicked: seq<Pair>)
      requires Valid(k)
      requires failure != 0 && error == 0 ==>
        localCount == Min(|list|, k) && IsReduction(list, k, offset, true, localPairs[..], localPicked) &&
        ChunkPairs(list, offset, seen) &&
          Accumulated(accumulatorPairs[..], if firstChunk then 0 else accumulatorCount, seen, k)
      modifies this`error, this`accumulatorCount, accumulatorPairs, histogram
      ensures error == old(error)
      ensures failure != 0 && error == 0 ==>
        Accumulated(accumulatorPairs[..], accumulatorCount, seen + Members(ShiftList(list, offset)), k)
      ensures failure == 0 || error != 0 ==>
        accumulatorCount == old(accumulatorCount) && accumulatorPairs[..] == old(accumulatorPairs[..])
    {
      ghost var before, count, local :=
        accumulatorPairs[..], if firstChunk then 0 else accumulatorCount, localPairs[..];
      ghost var active := failure != 0 && error == 0;
      if active {
        ChunkCombines(before, count, seen, local, list, offset, k, localPicked);
      }
      ghost var picked := Merge(k, firstChunk);
      if active {
        ChunkFolds(before, count, seen, local, list, offset, k, localPicked, accumulatorPairs[..], picked);
      }
    }

    /** The whole fold over any published chunks. A flagged row is committed exactly when
        every chunk was consistent and at least k pairs were seen; then its output is an
        exact Top-k of all of them. Otherwise flag and output stay as they were. Nothing
        depends on what the workspaces held before. */
    method RepairPublished(k: nat, chunks: seq<PublishedChunk>) returns (ghost picked: seq<Pair>)
      requires Valid(k) && chunks != []
      requires ChunksWellFormed(chunks, segmentCapacity)
      modifies this`error, this`localCount, this`accumulatorCount, this`failure
      modifies candidatePairs, segmentCounts, localPairs, accumulatorPairs, output, histogram
      ensures Commits(old(failure), chunks, segmentCapacity, k) ==>
        failure == 0 && |picked| == k && NoDuplicates(picked) &&
        IsTopK(SeenPairs(chunks, segmentCapacity, |chunks|), Members(picked), k) &&
        forall j :: 0 <= j < k ==> output[j] == picked[j].id
      ensures !Commits(old(failure), chunks, segmentCapacity, k) ==>
        failure == old(failure) && output[..] == old(output[..])
    {
      for c := 0 to |chunks|
        invariant failure == old(failure) && output[..] == old(output[..])
        invariant c > 0 ==>
          FoldInvariant(k, SeenPairs(chunks, segmentCapacity, c), AllConsistent(chunks, segmentCapacity, c))
      {
        FoldPublished(k, chunks, c);
      }
      picked := accumulatorPairs[..];
      if failure != 0 && error == 0 {
        AccumulatedRow(picked, accumulatorCount, SeenPairs(chunks, segmentCapacity, |chunks|), k);
      }
      FinalizeRepair(k);
    }

    method FoldPublished(k: nat, chunks: seq<PublishedChunk>, c: nat)
      requires Valid(k) && c < |chunks| && ChunksWellFormed(chunks, segmentCapacity)
      requires c > 0 ==>
        FoldInvariant(k, SeenPairs(chunks, segmentCapacity, c), AllConsistent(chunks, segmentCapacity, c))
      modifies this`error, this`localCount, this`accumulatorCount
      modifies candidatePairs, segmentCounts, localPairs, accumulatorPairs, histogram
      ensures FoldInvariant(k, SeenPairs(chunks, segmentCapacity, c + 1), AllConsistent(chunks, segmentCapacity, c + 1))
    {
      LoadChunk(chunks[c]);
      RepairChunk(k, chunks[c].start, chunks[c].end, chunks[c].offset, c == 0, chunks[c].List(segmentCapacity),
                  SeenPairs(chunks, segmentCapacity, c), AllConsistent(chunks, segmentCapacity, c));
      AllConsistentStep(chunks, segmentCapacity, c);
    }

    method LoadChunk(chunk: PublishedChunk)
      requires |chunk.pairs| == candidatePairs.Length && |chunk.counts| == segmentCounts.Length
      modifies candidatePairs, segmentCounts
      ensures candidatePairs[..] == chunk.pairs && segmentCounts[..] == chunk.counts
    {
      forall i | 0 <= i < candidatePairs.Length {
        candidatePairs[i] := chunk.pairs[i];
      }
      forall i | 0 <= i < segmentCounts.Length {
        segmentCounts[i] := chunk.counts[i];
      }
    }
  }
}
