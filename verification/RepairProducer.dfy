/** The masked repair producer: for a flagged row it publishes every pair of the chunk's
    range, by ID segment; it never overflows a segment. */
module RepairProducer {
  import opened Arithmetic
  import opened Exactness
  import opened RadixSelect
  import opened FloatKeys
  import opened CandidateEmission
  import opened PairReducer
  import opened HierarchicalRepair

  /** The chunk's view of a row's scores: chunk-local IDs. */
  function ChunkKey(key: nat -> nat, offset: nat): nat -> nat {
    (id: nat) => key(offset + id)
  }

  function ChunkFilter(lo: nat, hi: nat): Filter {
    Filter(lo, hi, 0)
  }

  ghost predicate StoresAt(pairs: seq<Pair>, base: nat, list: seq<Pair>) {
    base + |list| <= |pairs| && forall i :: base <= i < base + |list| ==> pairs[i] == list[i - base]
  }

  /** A flagged row's chunk storage: the pairs and the published segment lengths. */
  datatype ChunkView = ChunkView(pairs: seq<Pair>, counts: seq<nat>)

  ghost function ViewOf(row: RepairRow): ChunkView
    reads row.candidatePairs, row.segmentCounts
  {
    ChunkView(row.candidatePairs[..], row.segmentCounts[..])
  }

  /** The math warp of segment `s` looks at its `v`-th ID; `key` and `f` are in chunk
      coordinates. */
  method VisitId(row: RepairRow, key: nat -> nat, f: Filter, tiles: nat, s: nat, v: nat, base: nat, count: nat)
    returns (next: nat)
    requires base + row.segmentCapacity <= row.candidatePairs.Length && v < tiles * TILE_LANES <= row.segmentCapacity
    requires count == |Emitted(key, f, REPAIR_SEGMENTS, s, v)|
    requires StoresAt(row.candidatePairs[..], base, Emitted(key, f, REPAIR_SEGMENTS, s, v))
    modifies row.candidatePairs
    ensures next == |Emitted(key, f, REPAIR_SEGMENTS, s, v + 1)| <= row.segmentCapacity
    ensures StoresAt(row.candidatePairs[..], base, Emitted(key, f, REPAIR_SEGMENTS, s, v + 1))
    ensures OthersUnchanged(old(row.candidatePairs[..]), row.candidatePairs[..], base, base + row.segmentCapacity)
  {
    next := count;
    var id := VisitedId(REPAIR_SEGMENTS, s, v);
    EmittedFits(key, f, REPAIR_SEGMENTS, s, tiles, row.segmentCapacity, v + 1);
    if Passes(key, f, id) {
      if count < row.segmentCapacity {
        row.candidatePairs[base + count] := Pair(key(id), id);
      }
      next := count + 1;
    }
  }

  /** The warp of segment `s` with `left` steps to go: its register counts what it emitted so
      far, its share of the pairs stores that, and after the last step the count is published. */
  ghost predicate WarpAt(
      view: ChunkView, base: nat, cap: nat, key: nat -> nat, f: Filter, tiles: nat, s: nat, left: nat, register: nat)
  {
    && left <= tiles * TILE_LANES + 1 && |view.counts| == REPAIR_SEGMENTS && s < REPAIR_SEGMENTS
    && base + cap <= |view.pairs|
    && var all := Emitted(key, f, REPAIR_SEGMENTS, s, Visits(tiles, left));
    && register == |all| <= cap && StoresAt(view.pairs, base, all)
    && (left == 0 ==> view.counts[s] == register)
  }

  lemma WarpVisits(
      view: ChunkView, base: nat, cap: nat, key: nat -> nat, f: Filter, tiles: nat, s: nat, left: nat, next: nat)
    requires 1 < left <= tiles * TILE_LANES + 1 && |view.counts| == REPAIR_SEGMENTS && s < REPAIR_SEGMENTS
    requires base + cap <= |view.pairs|
    requires next == |Emitted(key, f, REPAIR_SEGMENTS, s, Visits(tiles, left) + 1)| <= cap
    requires StoresAt(view.pairs, base, Emitted(key, f, REPAIR_SEGMENTS, s, Visits(tiles, left) + 1))
    ensures WarpAt(view, base, cap, key, f, tiles, s, left - 1, next)
  {
    assert Visits(tiles, left - 1) == Visits(tiles, left) + 1;
  }

  lemma WarpPublishes(
      before: ChunkView, after: ChunkView, base: nat, cap: nat, key: nat -> nat, f: Filter, tiles: nat, s: nat,
      register: nat)
    requires WarpAt(before, base, cap, key, f, tiles, s, 1, register)
    requires after == before.(counts := before.counts[s := register])
    ensures WarpAt(after, base, cap, key, f, tiles, s, 0, register)
  {
    assert Visits(tiles, 1) == Visits(tiles, 0);
  }

  /** Only the given share and the count of warp `s` may differ. */
  ghost predicate OnlyWarp(before: ChunkView, after: ChunkView, base: nat, cap: nat, s: nat) {
    && OthersUnchanged(before.pairs, after.pairs, base, base + cap) && |after.counts| == |before.counts|
    && forall t :: 0 <= t < |before.counts| && t != s ==> after.counts[t] == before.counts[t]
  }

  /** One step of a warp: an ID, or the closing publication. */
  method StepWarp(row: RepairRow, base: nat, key: nat -> nat, f: Filter, tiles: nat, s: nat, left: nat, register: nat)
    returns (next: nat)
    requires row.segmentCounts.Length == REPAIR_SEGMENTS && tiles * TILE_LANES <= row.segmentCapacity && left > 0
    requires WarpAt(ViewOf(row), base, row.segmentCapacity, key, f, tiles, s, left, register)
    modifies row.candidatePairs, row.segmentCounts
    ensures WarpAt(ViewOf(row), base, row.segmentCapacity, key, f, tiles, s, left - 1, next)
    ensures OnlyWarp(old(ViewOf(row)), ViewOf(row), base, row.segmentCapacity, s)
  {
    ghost var before := ViewOf(row);
    next := register;
    if left > 1 {
      next := VisitId(row, key, f, tiles, s, Visits(tiles, left), base, register);
      WarpVisits(ViewOf(row), base, row.segmentCapacity, key, f, tiles, s, left, next);
    } else {
      row.segmentCounts[s] := register;
      WarpPublishes(before, ViewOf(row), base, row.segmentCapacity, key, f, tiles, s, register);
    }
  }

  ghost predicate Stands(
      view: ChunkView, bases: seq<nat>, cap: nat, key: nat -> nat, f: Filter, tiles: nat,
      left: seq<nat>, registers: seq<nat>, s: nat)
    requires s < |bases| == |left| == |registers|
  {
    WarpAt(view, bases[s], cap, key, f, tiles, s, left[s], registers[s])
  }

  /** Where all warps stand. */
  ghost predicate WarpsAt(
      view: ChunkView, bases: seq<nat>, cap: nat, key: nat -> nat, f: Filter, tiles: nat,
      left: seq<nat>, registers: seq<nat>)
  {
    && AreApart(bases, REPAIR_SEGMENTS, cap, |view.pairs|) && |left| == |registers| == REPAIR_SEGMENTS
    && forall s {:trigger Stands(view, bases, cap, key, f, tiles, left, registers, s)} :: 0 <= s < REPAIR_SEGMENTS ==>
         Stands(view, bases, cap, key, f, tiles, left, registers, s)
  }

  lemma StoredOutside(before: seq<Pair>, after: seq<Pair>, base: nat, other: nat, cap: nat, list: seq<Pair>)
    requires StoresAt(before, base, list) && |list| <= cap && (base + cap <= other || other + cap <= base)
    requires OthersUnchanged(before, after, other, other + cap)
    ensures StoresAt(after, base, list)
  {
  }

  /** A warp's step leaves every other warp where it was. */
  lemma {:induction false} OtherWarpStays(
      before: ChunkView, after: ChunkView, base: nat, other: nat, cap: nat, key: nat -> nat, f: Filter, tiles: nat,
      t: nat, s: nat, left: nat, register: nat)
    requires WarpAt(before, base, cap, key, f, tiles, t, left, register)
    requires base + cap <= other || other + cap <= base
    requires t != s && OnlyWarp(before, after, other, cap, s)
    ensures WarpAt(after, base, cap, key, f, tiles, t, left, register)
  {
    StoredOutside(before.pairs, after.pairs, base, other, cap,
                  Emitted(key, f, REPAIR_SEGMENTS, t, Visits(tiles, left)));
  }

  lemma {:induction false} WarpsStep(
      before: ChunkView, after: ChunkView, bases: seq<nat>, cap: nat, key: nat -> nat, f: Filter, tiles: nat,
      left: seq<nat>, registers: seq<nat>, s: nat, next: nat)
    requires WarpsAt(before, bases, cap, key, f, tiles, left, registers) && s < REPAIR_SEGMENTS && left[s] > 0
    requires WarpAt(after, bases[s], cap, key, f, tiles, s, left[s] - 1, next)
    requires OnlyWarp(before, after, bases[s], cap, s)
    ensures WarpsAt(after, bases, cap, key, f, tiles, left[s := left[s] - 1], registers[s := next])
  {
    var left', registers' := left[s := left[s] - 1], registers[s := next];
    forall t | 0 <= t < REPAIR_SEGMENTS ensures Stands(after, bases, cap, key, f, tiles, left', registers', t) {
      assert Stands(before, bases, cap, key, f, tiles, left, registers, t);
      if t != s {
        OtherWarpStays(before, after, bases[t], bases[s], cap, key, f, tiles, t, s, left[t], registers[t]);
      }
    }
  }

  /** Segment `s` of the row's storage publishes exactly its warp's list, which fits. */
  ghost predicate SegmentPublished(view: ChunkView, cap: nat, key: nat -> nat, f: Filter, tiles: nat, s: nat) {
    var list := Emitted(key, f, REPAIR_SEGMENTS, s, tiles * TILE_LANES);
    s < |view.counts| && view.counts[s] == |list| <= cap && StoresAt(view.pairs, s * cap, list)
  }

  lemma {:induction false} WarpsEnd(
      view: ChunkView, cap: nat, key: nat -> nat, f: Filter, tiles: nat, left: seq<nat>, registers: seq<nat>)
    requires WarpsAt(view, Bases(REPAIR_SEGMENTS, cap), cap, key, f, tiles, left, registers) && !Unfinished(left)
    ensures forall s :: 0 <= s < REPAIR_SEGMENTS ==> SegmentPublished(view, cap, key, f, tiles, s)
  {
    var bases := Bases(REPAIR_SEGMENTS, cap);
    forall s | 0 <= s < REPAIR_SEGMENTS ensures SegmentPublished(view, cap, key, f, tiles, s) {
      assert Stands(view, bases, cap, key, f, tiles, left, registers, s);
    }
  }

  /** Before the first step no warp has emitted anything. */
  lemma {:induction false} WarpsStart(
      view: ChunkView, cap: nat, key: nat -> nat, f: Filter, tiles: nat, left: seq<nat>, registers: seq<nat>)
    requires |view.counts| == REPAIR_SEGMENTS && |view.pairs| == REPAIR_SEGMENTS * cap
    requires |left| == |registers| == REPAIR_SEGMENTS
    requires forall s :: 0 <= s < REPAIR_SEGMENTS ==> left[s] == tiles * TILE_LANES + 1 && registers[s] == 0
    ensures WarpsAt(view, Bases(REPAIR_SEGMENTS, cap), cap, key, f, tiles, left, registers)
  {
    BasesAreApart(REPAIR_SEGMENTS, cap);
  }

  /** Any warp that has steps left takes its next one. */
  method StepSomeWarp(
      row: RepairRow, bases: seq<nat>, key: nat -> nat, f: Filter, tiles: nat, left0: seq<nat>, registers0: seq<nat>)
    returns (left: seq<nat>, registers: seq<nat>)
    requires row.segmentCounts.Length == REPAIR_SEGMENTS && tiles * TILE_LANES <= row.segmentCapacity
    requires WarpsAt(ViewOf(row), bases, row.segmentCapacity, key, f, tiles, left0, registers0) && Unfinished(left0)
    modifies row.candidatePairs, row.segmentCounts
    ensures WarpsAt(ViewOf(row), bases, row.segmentCapacity, key, f, tiles, left, registers)
    ensures SumFirst(left, |left|) < SumFirst(left0, |left0|)
  {
    var s :| 0 <= s < |left0| && left0[s] > 0;
    ghost var before := ViewOf(row);
    assert Stands(before, bases, row.segmentCapacity, key, f, tiles, left0, registers0, s);
    var register := StepWarp(row, bases[s], key, f, tiles, s, left0[s], registers0[s]);
    WarpsStep(before, ViewOf(row), bases, row.segmentCapacity, key, f, tiles, left0, registers0, s, register);
    StepTaken(left0, s);
    left, registers := left0[s := left0[s] - 1], registers0[s := register];
  }

  /** The sixteen math warps publish a flagged row's chunk, in any interleaving of their
      steps. */
  method RunWarps(row: RepairRow, key: nat -> nat, f: Filter, tiles: nat)
    requires row.candidatePairs.Length == REPAIR_SEGMENTS * row.segmentCapacity
    requires row.segmentCounts.Length == REPAIR_SEGMENTS && tiles * TILE_LANES <= row.segmentCapacity
    modifies row.candidatePairs, row.segmentCounts
    ensures forall s :: 0 <= s < REPAIR_SEGMENTS ==>
      SegmentPublished(ViewOf(row), row.segmentCapacity, key, f, tiles, s)
  {
    var bases := Bases(REPAIR_SEGMENTS, row.segmentCapacity);
    var registers: seq<nat> := seq(REPAIR_SEGMENTS, s => 0);
    var left: seq<nat> := seq(REPAIR_SEGMENTS, s => tiles * TILE_LANES + 1);
    WarpsStart(ViewOf(row), row.segmentCapacity, key, f, tiles, left, registers);
    while Unfinished(left)
      invariant WarpsAt(ViewOf(row), bases, row.segmentCapacity, key, f, tiles, left, registers)
      decreases SumFirst(left, |left|)
    {
      left, registers := StepSomeWarp(row, bases, key, f, tiles, left, registers);
    }
    WarpsEnd(ViewOf(row), row.segmentCapacity, key, f, tiles, left, registers);
  }

  /** The launch covers row pairs: a flagged row publishes its chunk, an unflagged row whose
      partner is flagged publishes empty segments, and a clean pair is skipped. */
  method ProduceChunk(row: RepairRow, partnerFlagged: bool, key: nat -> nat, f: Filter, tiles: nat)
    requires row.candidatePairs.Length == REPAIR_SEGMENTS * row.segmentCapacity
    requires row.segmentCounts.Length == REPAIR_SEGMENTS
    requires tiles * TILE_LANES <= row.segmentCapacity
    modifies row.candidatePairs, row.segmentCounts
    ensures row.failure != 0 ==> forall s :: 0 <= s < REPAIR_SEGMENTS ==>
      SegmentPublished(ViewOf(row), row.segmentCapacity, key, f, tiles, s)
    ensures row.failure == 0 ==> row.candidatePairs[..] == old(row.candidatePairs[..])
    ensures row.failure == 0 && partnerFlagged ==> row.segmentCounts[..] == seq(REPAIR_SEGMENTS, s => 0)
    ensures row.failure == 0 && !partnerFlagged ==> row.segmentCounts[..] == old(row.segmentCounts[..])
  {
    if row.failure == 0 && !partnerFlagged {
      return;
    }
    if row.failure == 0 {
      forall s | 0 <= s < REPAIR_SEGMENTS {
        row.segmentCounts[s] := 0;
      }
      return;
    }
    RunWarps(row, key, f, tiles);
  }

  /** A published segment lists its passing pairs once. */
  lemma {:induction false} SegmentContents(
      view: ChunkView, cap: nat, key: nat -> nat, f: Filter, tiles: nat, s: nat)
    requires SegmentPublished(view, cap, key, f, tiles, s) && s * cap + view.counts[s] <= |view.pairs|
    requires s < REPAIR_SEGMENTS && f.hi <= tiles * (TILE_LANES * REPAIR_SEGMENTS)
    ensures NoDuplicates(Segment(view.pairs, view.counts, cap, s))
    ensures forall p :: p in Segment(view.pairs, view.counts, cap, s) <==>
      p in PassingPairs(key, f) && (p.id / TILE_LANES) % REPAIR_SEGMENTS == s
  {
    var segment := Emitted(key, f, REPAIR_SEGMENTS, s, tiles * TILE_LANES);
    assert Segment(view.pairs, view.counts, cap, s) == segment;
    EmittedIsSegment(key, f, REPAIR_SEGMENTS, s, tiles);
    forall p ensures p in segment <==> p in PassingPairs(key, f) && (p.id / TILE_LANES) % REPAIR_SEGMENTS == s {
      assert p in segment <==> p in Members(segment);
    }
  }

  /** Lists of different segments put together. */
  lemma JoinedContents(front: seq<Pair>, segment: seq<Pair>, pool: set<Pair>, n: nat)
    requires n > 0 && NoDuplicates(front) && NoDuplicates(segment)
    requires forall p :: p in front <==> p in pool && (p.id / TILE_LANES) % REPAIR_SEGMENTS < n - 1
    requires forall p :: p in segment <==> p in pool && (p.id / TILE_LANES) % REPAIR_SEGMENTS == n - 1
    ensures NoDuplicates(front + segment)
    ensures forall p :: p in front + segment <==> p in pool && (p.id / TILE_LANES) % REPAIR_SEGMENTS < n
  {
    forall i, j | 0 <= i < |front| && 0 <= j < |segment| ensures front[i] != segment[j] {
      assert front[i] in front && segment[j] in segment;
    }
  }

  /** Gathering the first n segments lists each of their passing pairs once. */
  lemma {:induction false} GatheredContents(
      view: ChunkView, cap: nat, key: nat -> nat, f: Filter, tiles: nat, n: nat)
    requires SegmentsFit(view.counts, cap) && |view.pairs| == REPAIR_SEGMENTS * cap && n <= REPAIR_SEGMENTS
    requires forall s :: 0 <= s < REPAIR_SEGMENTS ==> SegmentPublished(view, cap, key, f, tiles, s)
    requires f.hi <= tiles * (TILE_LANES * REPAIR_SEGMENTS)
    ensures NoDuplicates(Gathered(view.pairs, view.counts, cap, n))
    ensures forall p :: p in Gathered(view.pairs, view.counts, cap, n) <==>
      p in PassingPairs(key, f) && (p.id / TILE_LANES) % REPAIR_SEGMENTS < n
  {
    if n > 0 {
      GatheredContents(view, cap, key, f, tiles, n - 1);
      ScaledStep(n - 1, REPAIR_SEGMENTS, cap);
      SegmentContents(view, cap, key, f, tiles, n - 1);
      JoinedContents(Gathered(view.pairs, view.counts, cap, n - 1), Segment(view.pairs, view.counts, cap, n - 1),
                     PassingPairs(key, f), n);
    }
  }

  /** What one flagged row's chunk publishes is consistent, valid, and after the shift
      exactly the next piece of the row: no repair error can arise. */
  lemma PublishedChunkIsRange(
      view: ChunkView, cap: nat, key: nat -> nat, offset: nat, lo: nat, hi: nat, tiles: nat)
    requires |view.counts| == REPAIR_SEGMENTS && |view.pairs| == REPAIR_SEGMENTS * cap
    requires forall s :: 0 <= s < REPAIR_SEGMENTS ==>
      SegmentPublished(view, cap, ChunkKey(key, offset), ChunkFilter(lo, hi), tiles, s)
    requires NumericScores(key) && lo <= hi <= tiles * (TILE_LANES * REPAIR_SEGMENTS) && offset + hi <= KEY_SPACE
    ensures Consistent(view.counts, cap, lo, hi)
    ensures
      var list := Gathered(view.pairs, view.counts, cap, REPAIR_SEGMENTS);
      ValidPairs(list) && ShiftFits(list, offset) &&
      Members(ShiftList(list, offset)) == RangePairs(key, offset + lo, offset + hi)
  {
    var local, f := ChunkKey(key, offset), ChunkFilter(lo, hi);
    forall s | 0 <= s < REPAIR_SEGMENTS ensures view.counts[s] <= cap {
      assert SegmentPublished(view, cap, local, f, tiles, s);
    }
    var list := Gathered(view.pairs, view.counts, cap, REPAIR_SEGMENTS);
    GatheredContents(view, cap, local, f, tiles, REPAIR_SEGMENTS);
    assert Members(list) == PassingPairs(local, f) == RangePairs(local, lo, hi);
    NoDuplicatesCardinality(list);
    RangeCardinality(local, lo, hi);
    ShiftedRange(list, key, offset, lo, hi);
  }

  lemma ShiftedRange(list: seq<Pair>, key: nat -> nat, offset: nat, lo: nat, hi: nat)
    requires NoDuplicates(list) && Members(list) == RangePairs(ChunkKey(key, offset), lo, hi)
    requires NumericScores(key) && offset + hi <= KEY_SPACE
    ensures ValidPairs(list) && ShiftFits(list, offset)
    ensures Members(ShiftList(list, offset)) == RangePairs(key, offset + lo, offset + hi)
  {
    forall i | 0 <= i < |list|
      ensures lo <= list[i].id < hi && list[i].key == key(offset + list[i].id)
    {
      assert list[i] in Members(list);
    }
    forall p | p in RangePairs(key, offset + lo, offset + hi) ensures p in Members(ShiftList(list, offset)) {
      InRangeIsShifted(list, key, offset, lo, hi, p);
    }
    forall p | p in Members(ShiftList(list, offset)) ensures p in RangePairs(key, offset + lo, offset + hi) {
      var i :| 0 <= i < |list| && ShiftList(list, offset)[i] == p;
      assert p == Pair(key(offset + list[i].id), offset + list[i].id);
    }
  }

  lemma InRangeIsShifted(list: seq<Pair>, key: nat -> nat, offset: nat, lo: nat, hi: nat, p: Pair)
    requires Members(list) == RangePairs(ChunkKey(key, offset), lo, hi) && ShiftFits(list, offset)
    requires offset + hi <= KEY_SPACE && p in RangePairs(key, offset + lo, offset + hi)
    ensures p in ShiftList(list, offset)
  {
    var q := Pair(key(p.id), p.id - offset);
    assert q == Pair(ChunkKey(key, offset)(p.id - offset), p.id - offset);
    assert q in RangePairs(ChunkKey(key, offset), lo, hi);
    assert q in Members(list);
    ShiftMembership(list, offset, q);
  }
}
