/** One row of the fused kernel: the math warps publish every candidate at or above the
    sampled floor, and the selection either accepts the row or flags it for repair. */
module FusedRow {
  import opened Arithmetic
  import opened Exactness
  import opened FloatKeys
  import opened Emission
  import opened CandidateEmission
  import opened CtaSelection

  /** IDs fit the 16-bit code; the operator admits contexts up to 163840. */
  const ID_LIMIT: nat := 0x8_0000

  /** Everything the math warps write for one row. */
  datatype StorageView = StorageView(scores: seq<nat>, indices: seq<nat>, spill: seq<Pair>, counts: seq<nat>)

  ghost function ViewOf(scratch: SelectionScratch): StorageView
    reads scratch.scores, scratch.indices, scratch.spill, scratch.counts
  {
    StorageView(scratch.scores[..], scratch.indices[..], scratch.spill[..], scratch.counts[..])
  }

  /** One segment's storage: `cap` slots from `slot0` on, `spillCap` spill entries from
      `spill0` on. */
  datatype Share = Share(slot0: nat, cap: nat, spill0: nat, spillCap: nat)

  function ShareOf(cap: nat, spillCap: nat, s: nat): Share {
    Share(s * cap, cap, s * spillCap, spillCap)
  }

  /** The share holds the list `all`: the first entries in the slots, the next in the spill,
      and the rest nowhere. */
  ghost predicate SegmentHolds(view: StorageView, h: Share, all: seq<Pair>) {
    && h.slot0 + h.cap <= |view.scores| == |view.indices| && h.spill0 + h.spillCap <= |view.spill|
    && (forall i :: h.slot0 <= i < h.slot0 + Min(|all|, h.cap) ==>
          view.scores[i] == all[i - h.slot0].key && view.indices[i] == PackId(all[i - h.slot0].id))
    && forall i :: h.spill0 <= i < h.spill0 + Min(|all| - h.cap, h.spillCap) ==>
         view.spill[i] == all[i - h.spill0 + h.cap]
  }

  /** Only the share's slots and spill entries may differ. */
  ghost predicate OnlyShare(before: StorageView, after: StorageView, h: Share) {
    && OthersUnchanged(before.scores, after.scores, h.slot0, h.slot0 + h.cap)
    && OthersUnchanged(before.indices, after.indices, h.slot0, h.slot0 + h.cap)
    && OthersUnchanged(before.spill, after.spill, h.spill0, h.spill0 + h.spillCap)
  }

  /** Store one candidate in its slot, else in the spill, else only count it. */
  method StoreCandidate(scratch: SelectionScratch, h: Share, count: nat, pair: Pair, ghost all: seq<Pair>)
    requires scratch.Valid() && count == |all| && SegmentHolds(ViewOf(scratch), h, all)
    modifies scratch.scores, scratch.indices, scratch.spill
    ensures SegmentHolds(ViewOf(scratch), h, all + [pair]) && OnlyShare(old(ViewOf(scratch)), ViewOf(scratch), h)
  {
    if count < h.cap {
      scratch.StorePair(h.slot0 + count, pair);
    } else if count < h.cap + h.spillCap {
      scratch.spill[h.spill0 + count - h.cap] := pair;
    }
  }

  /** The math warp of segment `s` looks at its `v`-th ID. */
  method VisitId(scratch: SelectionScratch, h: Share, key: nat -> nat, f: Filter, s: nat, v: nat, count: nat)
    returns (next: nat)
    requires scratch.Valid() && count == |Emitted(key, f, SEGMENTS, s, v)|
    requires SegmentHolds(ViewOf(scratch), h, Emitted(key, f, SEGMENTS, s, v))
    modifies scratch.scores, scratch.indices, scratch.spill
    ensures next == |Emitted(key, f, SEGMENTS, s, v + 1)|
    ensures SegmentHolds(ViewOf(scratch), h, Emitted(key, f, SEGMENTS, s, v + 1))
    ensures OnlyShare(old(ViewOf(scratch)), ViewOf(scratch), h)
  {
    next := count;
    var id := VisitedId(SEGMENTS, s, v);
    if Passes(key, f, id) {
      StoreCandidate(scratch, h, count, Pair(key(id), id), Emitted(key, f, SEGMENTS, s, v));
      next := count + 1;
    }
  }

  /** The warp of segment `s` with `left` steps to go: its register counts what it emitted so
      far, its share holds that, and after the last step the count is published. */
  ghost predicate WarpAt(
      view: StorageView, h: Share, key: nat -> nat, f: Filter, tiles: nat, s: nat, left: nat, register: nat)
  {
    && left <= tiles * TILE_LANES + 1 && |view.counts| == SEGMENTS && s < SEGMENTS
    && var all := Emitted(key, f, SEGMENTS, s, Visits(tiles, left));
    && register == |all| && SegmentHolds(view, h, all)
    && (left == 0 ==> view.counts[s] == register)
  }

  /** A warp whose share now holds one visit more. */
  lemma WarpVisits(
      view: StorageView, h: Share, key: nat -> nat, f: Filter, tiles: nat, s: nat, left: nat, next: nat)
    requires 1 < left <= tiles * TILE_LANES + 1 && |view.counts| == SEGMENTS && s < SEGMENTS
    requires next == |Emitted(key, f, SEGMENTS, s, Visits(tiles, left) + 1)|
    requires SegmentHolds(view, h, Emitted(key, f, SEGMENTS, s, Visits(tiles, left) + 1))
    ensures WarpAt(view, h, key, f, tiles, s, left - 1, next)
  {
    assert Visits(tiles, left - 1) == Visits(tiles, left) + 1;
  }

  lemma WarpPublishes(
      before: StorageView, after: StorageView, h: Share, key: nat -> nat, f: Filter, tiles: nat, s: nat, register: nat)
    requires WarpAt(before, h, key, f, tiles, s, 1, register)
    requires after == before.(counts := before.counts[s := register])
    ensures WarpAt(after, h, key, f, tiles, s, 0, register)
  {
    assert Visits(tiles, 1) == Visits(tiles, 0);
  }

  /** Only the given share and the count of warp `s` may differ. */
  ghost predicate OnlyWarp(before: StorageView, after: StorageView, h: Share, s: nat) {
    && OnlyShare(before, after, h) && |after.counts| == |before.counts|
    && forall t :: 0 <= t < |before.counts| && t != s ==> after.counts[t] == before.counts[t]
  }

  /** One step of a warp: an ID, or the closing publication. */
  method StepWarp(
      scratch: SelectionScratch, h: Share, key: nat -> nat, f: Filter, tiles: nat, s: nat, left: nat, register: nat)
    returns (next: nat)
    requires scratch.Valid() && left > 0 && WarpAt(ViewOf(scratch), h, key, f, tiles, s, left, register)
    modifies scratch.scores, scratch.indices, scratch.spill, scratch.counts
    ensures WarpAt(ViewOf(scratch), h, key, f, tiles, s, left - 1, next)
    ensures OnlyWarp(old(ViewOf(scratch)), ViewOf(scratch), h, s)
  {
    ghost var before := ViewOf(scratch);
    next := register;
    if left > 1 {
      next := VisitId(scratch, h, key, f, s, Visits(tiles, left), register);
      WarpVisits(ViewOf(scratch), h, key, f, tiles, s, left, next);
    } else {
      scratch.counts[s] := register;
      WarpPublishes(before, ViewOf(scratch), h, key, f, tiles, s, register);
    }
  }

  /** Two shares that have nothing in common. */
  predicate Apart(h: Share, other: Share) {
    && (h.slot0 + h.cap <= other.slot0 || other.slot0 + other.cap <= h.slot0)
    && (h.spill0 + h.spillCap <= other.spill0 || other.spill0 + other.spillCap <= h.spill0)
  }

  lemma HoldsOutside(before: StorageView, after: StorageView, h: Share, other: Share, all: seq<Pair>)
    requires SegmentHolds(before, h, all) && Apart(h, other) && OnlyShare(before, after, other)
    ensures SegmentHolds(after, h, all)
  {
  }

  /** A warp's step leaves every other warp where it was. */
  lemma {:induction false} OtherWarpStays(
      before: StorageView, after: StorageView, h: Share, other: Share, key: nat -> nat, f: Filter, tiles: nat,
      t: nat, s: nat, left: nat, register: nat)
    requires WarpAt(before, h, key, f, tiles, t, left, register)
    requires t != s && Apart(h, other) && OnlyWarp(before, after, other, s)
    ensures WarpAt(after, h, key, f, tiles, t, left, register)
  {
    HoldsOutside(before, after, h, other, Emitted(key, f, SEGMENTS, t, Visits(tiles, left)));
  }

  ghost predicate Stands(
      view: StorageView, shares: seq<Share>, key: nat -> nat, f: Filter, tiles: nat,
      left: seq<nat>, registers: seq<nat>, s: nat)
    requires s < |shares| == |left| == |registers|
  {
    WarpAt(view, shares[s], key, f, tiles, s, left[s], registers[s])
  }

  ghost predicate AllApart(shares: seq<Share>) {
    forall s, t :: 0 <= s < |shares| && 0 <= t < |shares| && s != t ==> Apart(shares[s], shares[t])
  }

  /** Where all warps stand. */
  ghost predicate WarpsAt(
      view: StorageView, shares: seq<Share>, key: nat -> nat, f: Filter, tiles: nat, left: seq<nat>,
      registers: seq<nat>)
  {
    && |shares| == |left| == |registers| == SEGMENTS && AllApart(shares)
    && forall s {:trigger Stands(view, shares, key, f, tiles, left, registers, s)} :: 0 <= s < SEGMENTS ==>
         Stands(view, shares, key, f, tiles, left, registers, s)
  }

  lemma {:induction false} WarpsStep(
      before: StorageView, after: StorageView, shares: seq<Share>, key: nat -> nat, f: Filter, tiles: nat,
      left: seq<nat>, registers: seq<nat>, s: nat, next: nat)
    requires WarpsAt(before, shares, key, f, tiles, left, registers) && s < SEGMENTS && left[s] > 0
    requires WarpAt(after, shares[s], key, f, tiles, s, left[s] - 1, next) && OnlyWarp(before, after, shares[s], s)
    ensures WarpsAt(after, shares, key, f, tiles, left[s := left[s] - 1], registers[s := next])
  {
    var left', registers' := left[s := left[s] - 1], registers[s := next];
    forall t | 0 <= t < SEGMENTS ensures Stands(after, shares, key, f, tiles, left', registers', t) {
      assert Stands(before, shares, key, f, tiles, left, registers, t);
      if t != s {
        OtherWarpStays(before, after, shares[t], shares[s], key, f, tiles, t, s, left[t], registers[t]);
      }
    }
  }

  /** What the warp of segment `s` emits for one row. */
  ghost function SegmentList(key: nat -> nat, f: Filter, tiles: nat, s: nat): seq<Pair> {
    Emitted(key, f, SEGMENTS, s, tiles * TILE_LANES)
  }

  /** The segment holds its warp's list and its count is the whole list's, overflow included. */
  ghost predicate RowSegmentHolds(
      view: StorageView, cap: nat, spillCap: nat, key: nat -> nat, f: Filter, tiles: nat, s: nat)
  {
    && s < |view.counts| && view.counts[s] == |SegmentList(key, f, tiles, s)|
    && SegmentHolds(view, ShareOf(cap, spillCap, s), SegmentList(key, f, tiles, s))
  }

  function Shares(cap: nat, spillCap: nat): (shares: seq<Share>)
    ensures |shares| == SEGMENTS && forall s :: 0 <= s < SEGMENTS ==> shares[s] == ShareOf(cap, spillCap, s)
  {
    seq(SEGMENTS, s requires 0 <= s < SEGMENTS => ShareOf(cap, spillCap, s))
  }

  lemma {:induction false} WarpsEnd(
      view: StorageView, cap: nat, spillCap: nat, key: nat -> nat, f: Filter, tiles: nat,
      left: seq<nat>, registers: seq<nat>)
    requires WarpsAt(view, Shares(cap, spillCap), key, f, tiles, left, registers) && !Unfinished(left)
    ensures forall s :: 0 <= s < SEGMENTS ==> RowSegmentHolds(view, cap, spillCap, key, f, tiles, s)
  {
    forall s | 0 <= s < SEGMENTS ensures RowSegmentHolds(view, cap, spillCap, key, f, tiles, s) {
      assert Stands(view, Shares(cap, spillCap), key, f, tiles, left, registers, s);
    }
  }

  lemma SharesAreApart(cap: nat, spillCap: nat)
    ensures AllApart(Shares(cap, spillCap))
  {
    forall s, t | 0 <= s < t < SEGMENTS
      ensures s * cap + cap <= t * cap && s * spillCap + spillCap <= t * spillCap
    {
      ScaledStep(s, t, cap);
      ScaledStep(s, t, spillCap);
    }
  }

  /** Before the first step no warp has emitted anything. */
  lemma {:induction false} WarpsStart(
      view: StorageView, cap: nat, spillCap: nat, key: nat -> nat, f: Filter, tiles: nat,
      left: seq<nat>, registers: seq<nat>)
    requires |view.counts| == SEGMENTS && |view.scores| == |view.indices| == SEGMENTS * cap
    requires |view.spill| == SEGMENTS * spillCap && |left| == |registers| == SEGMENTS
    requires forall s :: 0 <= s < SEGMENTS ==> left[s] == tiles * TILE_LANES + 1 && registers[s] == 0
    ensures WarpsAt(view, Shares(cap, spillCap), key, f, tiles, left, registers)
  {
    var shares := Shares(cap, spillCap);
    SharesAreApart(cap, spillCap);
    forall s | 0 <= s < SEGMENTS ensures Stands(view, shares, key, f, tiles, left, registers, s) {
      ScaledStep(s, SEGMENTS, cap);
      ScaledStep(s, SEGMENTS, spillCap);
    }
  }

  /** Any warp that has steps left takes its next one. */
  method StepSomeWarp(
      scratch: SelectionScratch, shares: seq<Share>, key: nat -> nat, f: Filter, tiles: nat,
      left0: seq<nat>, registers0: seq<nat>)
    returns (left: seq<nat>, registers: seq<nat>)
    requires scratch.Valid() && Unfinished(left0)
    requires WarpsAt(ViewOf(scratch), shares, key, f, tiles, left0, registers0)
    modifies scratch.scores, scratch.indices, scratch.spill, scratch.counts
    ensures WarpsAt(ViewOf(scratch), shares, key, f, tiles, left, registers)
    ensures SumFirst(left, |left|) < SumFirst(left0, |left0|)
  {
    var s :| 0 <= s < |left0| && left0[s] > 0;
    ghost var before := ViewOf(scratch);
    assert Stands(before, shares, key, f, tiles, left0, registers0, s);
    var register := StepWarp(scratch, shares[s], key, f, tiles, s, left0[s], registers0[s]);
    WarpsStep(before, ViewOf(scratch), shares, key, f, tiles, left0, registers0, s, register);
    StepTaken(left0, s);
    left, registers := left0[s := left0[s] - 1], registers0[s := register];
  }

  /** The eight math warps publish their segments of one row, in any interleaving of their
      steps. */
  method ProduceCandidates(scratch: SelectionScratch, key: nat -> nat, f: Filter, tiles: nat)
    requires scratch.Valid()
    modifies scratch.scores, scratch.indices, scratch.spill, scratch.counts
    ensures forall s :: 0 <= s < SEGMENTS ==>
      RowSegmentHolds(ViewOf(scratch), scratch.segmentCapacity, scratch.spillCapacity, key, f, tiles, s)
  {
    var shares := Shares(scratch.segmentCapacity, scratch.spillCapacity);
    var registers: seq<nat> := seq(SEGMENTS, s => 0);
    var left: seq<nat> := seq(SEGMENTS, s => tiles * TILE_LANES + 1);
    WarpsStart(ViewOf(scratch), scratch.segmentCapacity, scratch.spillCapacity, key, f, tiles, left, registers);
    while Unfinished(left)
      invariant WarpsAt(ViewOf(scratch), shares, key, f, tiles, left, registers)
      decreases SumFirst(left, |left|)
    {
      left, registers := StepSomeWarp(scratch, shares, key, f, tiles, left, registers);
    }
    WarpsEnd(ViewOf(scratch), scratch.segmentCapacity, scratch.spillCapacity, key, f, tiles, left, registers);
  }

  /** A completely published row whose segments all fit. */
  ghost predicate RowPublished(
      view: StorageView, cap: nat, spillCap: nat, key: nat -> nat, f: Filter, tiles: nat)
  {
    && |view.counts| == SEGMENTS && cap > 0 && !Overflows(view.counts, cap, spillCap)
    && |view.scores| == |view.indices| == SEGMENTS * cap && |view.spill| == SEGMENTS * spillCap
    && (forall s :: 0 <= s < SEGMENTS ==> RowSegmentHolds(view, cap, spillCap, key, f, tiles, s))
    && f.hi <= ID_LIMIT && f.hi <= tiles * (TILE_LANES * SEGMENTS)
  }

  /** What each position decodes to: slots first, then the spill. */
  ghost function Entries(view: StorageView, cap: nat): (entries: seq<Pair>)
    requires |view.scores| == |view.indices| && cap > 0
    ensures |entries| == |view.scores| + |view.spill|
  {
    Decoded(view.scores, view.indices, cap) + view.spill
  }

  /** Where entry `j` of segment `s` is stored. */
  ghost function PositionOf(cap: nat, spillCap: nat, s: nat, j: nat): nat {
    if j < cap then s * cap + j else SEGMENTS * cap + s * spillCap + (j - cap)
  }

  lemma {:induction false} SlotEntry(view: StorageView, h: Share, all: seq<Pair>, s: nat, j: nat)
    requires SegmentHolds(view, h, all) && h.slot0 == s * h.cap && j < Min(|all|, h.cap)
    requires all[j].id < ID_LIMIT && SegmentOf(all[j].id) == s
    ensures h.slot0 + j < |view.scores| && Entries(view, h.cap)[h.slot0 + j] == all[j]
  {
    QuotientAndRemainder(h.slot0 + j, h.cap, s, j);
    PackRoundTrip(all[j].id);
  }

  lemma {:induction false} SpillEntry(view: StorageView, h: Share, all: seq<Pair>, j: nat)
    requires SegmentHolds(view, h, all) && h.cap <= j < |all| <= h.cap + h.spillCap && h.cap > 0
    ensures h.spill0 + (j - h.cap) < |view.spill|
    ensures Entries(view, h.cap)[|view.scores| + h.spill0 + (j - h.cap)] == all[j]
  {
    assert view.spill[h.spill0 + (j - h.cap)] == all[j];
  }

  lemma ListedIdFits(key: nat -> nat, f: Filter, tiles: nat, s: nat, j: nat)
    requires s < SEGMENTS && f.hi <= ID_LIMIT && j < |SegmentList(key, f, tiles, s)|
    ensures SegmentList(key, f, tiles, s)[j].id < ID_LIMIT && SegmentOf(SegmentList(key, f, tiles, s)[j].id) == s
  {
    EmittedContents(key, f, SEGMENTS, s, tiles * TILE_LANES);
    assert SegmentList(key, f, tiles, s)[j] in SegmentList(key, f, tiles, s);
  }

  /** Decoding a stored entry gives back the emitted pair. */
  lemma StoredEntryDecodes(
      view: StorageView, cap: nat, spillCap: nat, key: nat -> nat, f: Filter, tiles: nat, s: nat, j: nat)
    requires |view.counts| == SEGMENTS && s < SEGMENTS && cap > 0
    requires |view.scores| == |view.indices| == SEGMENTS * cap && |view.spill| == SEGMENTS * spillCap
    requires RowSegmentHolds(view, cap, spillCap, key, f, tiles, s)
    requires f.hi <= ID_LIMIT && view.counts[s] <= cap + spillCap && j < view.counts[s]
    ensures PositionOf(cap, spillCap, s, j) < |Entries(view, cap)|
    ensures Entries(view, cap)[PositionOf(cap, spillCap, s, j)] == SegmentList(key, f, tiles, s)[j]
  {
    var all := SegmentList(key, f, tiles, s);
    if j < cap {
      ListedIdFits(key, f, tiles, s, j);
      SlotEntry(view, ShareOf(cap, spillCap, s), all, s, j);
    } else {
      SpillEntry(view, ShareOf(cap, spillCap, s), all, j);
    }
  }

  lemma StoredEntryIsLive(counts: seq<nat>, cap: nat, spillCap: nat, s: nat, j: nat)
    requires |counts| == SEGMENTS && s < SEGMENTS && j < counts[s]
    ensures InRuns(LiveRuns(counts, cap, spillCap), PositionOf(cap, spillCap, s, j))
  {
    InsideBlock(LiveRuns(counts, cap, spillCap), if j < cap then s else SEGMENTS + s, PositionOf(cap, spillCap, s, j));
  }

  /** Conversely every live position stores some emitted entry. */
  lemma LivePositionIsStored(counts: seq<nat>, cap: nat, spillCap: nat, i: nat) returns (s: nat, j: nat)
    requires |counts| == SEGMENTS && InRuns(LiveRuns(counts, cap, spillCap), i)
    ensures s < SEGMENTS && j < counts[s] && i == PositionOf(cap, spillCap, s, j)
  {
    var runs := LiveRuns(counts, cap, spillCap);
    var r :| 0 <= r < |runs| && InBlock(runs, r, i);
    if r < SEGMENTS {
      s, j := r, i - r * cap;
    } else {
      s := r - SEGMENTS;
      j := i - SEGMENTS * cap - s * spillCap + cap;
    }
  }

  lemma LivePositionsDiffer(
      view: StorageView, cap: nat, spillCap: nat, key: nat -> nat, f: Filter, tiles: nat, i: nat, i': nat)
    requires RowPublished(view, cap, spillCap, key, f, tiles)
    requires InRuns(LiveRuns(view.counts, cap, spillCap), i) && InRuns(LiveRuns(view.counts, cap, spillCap), i') &&
      i != i'
    ensures i < |Entries(view, cap)| && i' < |Entries(view, cap)|
    ensures Entries(view, cap)[i] != Entries(view, cap)[i']
  {
    var s, j := LivePositionIsStored(view.counts, cap, spillCap, i);
    var s', j' := LivePositionIsStored(view.counts, cap, spillCap, i');
    StoredEntryDecodes(view, cap, spillCap, key, f, tiles, s, j);
    StoredEntryDecodes(view, cap, spillCap, key, f, tiles, s', j');
    EmittedContents(key, f, SEGMENTS, s, tiles * TILE_LANES);
    EmittedContents(key, f, SEGMENTS, s', tiles * TILE_LANES);
    assert SegmentList(key, f, tiles, s)[j] in SegmentList(key, f, tiles, s);
    assert SegmentList(key, f, tiles, s')[j'] in SegmentList(key, f, tiles, s');
  }

  lemma LivePairPasses(
      view: StorageView, cap: nat, spillCap: nat, key: nat -> nat, f: Filter, tiles: nat, i: nat)
    requires RowPublished(view, cap, spillCap, key, f, tiles)
    requires InRuns(LiveRuns(view.counts, cap, spillCap), i)
    ensures i < |Entries(view, cap)|
    ensures var p := Entries(view, cap)[i]; p == Pair(key(p.id), p.id) && Passes(key, f, p.id)
  {
    var s, j := LivePositionIsStored(view.counts, cap, spillCap, i);
    StoredEntryDecodes(view, cap, spillCap, key, f, tiles, s, j);
    EmittedContents(key, f, SEGMENTS, s, tiles * TILE_LANES);
    assert SegmentList(key, f, tiles, s)[j] in SegmentList(key, f, tiles, s);
  }

  lemma PassingPairIsLive(
      view: StorageView, cap: nat, spillCap: nat, key: nat -> nat, f: Filter, tiles: nat, id: nat) returns (i: nat)
    requires RowPublished(view, cap, spillCap, key, f, tiles) && Passes(key, f, id)
    ensures InRuns(LiveRuns(view.counts, cap, spillCap), i) && i < |Entries(view, cap)|
    ensures Entries(view, cap)[i] == Pair(key(id), id)
  {
    var s := SegmentOf(id);
    EmittedIsSegment(key, f, SEGMENTS, s, tiles);
    assert Pair(key(id), id) in SegmentPairs(key, f, SEGMENTS, s);
    assert Pair(key(id), id) in Members(SegmentList(key, f, tiles, s));
    assert RowSegmentHolds(view, cap, spillCap, key, f, tiles, s);
    var j :| 0 <= j < view.counts[s] && SegmentList(key, f, tiles, s)[j] == Pair(key(id), id);
    StoredEntryDecodes(view, cap, spillCap, key, f, tiles, s, j);
    StoredEntryIsLive(view.counts, cap, spillCap, s, j);
    i := PositionOf(cap, spillCap, s, j);
  }

  /** The logical view of a row: what each position decodes to, and which are live. */
  ghost predicate HoldsExactly(cands: seq<Pair>, live: set<nat>, key: nat -> nat, f: Filter) {
    && (forall i :: i in live ==>
          i < |cands| && cands[i] == Pair(key(cands[i].id), cands[i].id) && Passes(key, f, cands[i].id))
    && DistinctPairs(cands, live)
    && forall id: nat :: Passes(key, f, id) ==> Pair(key(id), id) in PairsAt(cands, live)
  }

  lemma RowHoldsExactly(
      view: StorageView, cap: nat, spillCap: nat, key: nat -> nat, f: Filter, tiles: nat)
    requires RowPublished(view, cap, spillCap, key, f, tiles)
    ensures HoldsExactly(Entries(view, cap), RunPositions(LiveRuns(view.counts, cap, spillCap)), key, f)
  {
    var cands, live := Entries(view, cap), RunPositions(LiveRuns(view.counts, cap, spillCap));
    forall i | i in live
      ensures i < |cands| && cands[i] == Pair(key(cands[i].id), cands[i].id) && Passes(key, f, cands[i].id)
    {
      LivePairPasses(view, cap, spillCap, key, f, tiles, i);
    }
    forall i, i' | i in live && i' in live && i < i' < |cands| ensures cands[i] != cands[i'] {
      LivePositionsDiffer(view, cap, spillCap, key, f, tiles, i, i');
    }
    forall id: nat | Passes(key, f, id) ensures Pair(key(id), id) in PairsAt(cands, live) {
      var i := PassingPairIsLive(view, cap, spillCap, key, f, tiles, id);
      assert i in live;
    }
  }

  /** An accepted row's live candidates are exactly the passing pairs of its range. */
  lemma LivePairsArePassing(cands: seq<Pair>, live: set<nat>, key: nat -> nat, f: Filter)
    requires HoldsExactly(cands, live, key, f) && NumericScores(key)
    ensures CandidatesPublished(cands, live) && PairsAt(cands, live) == PassingPairs(key, f)
  {
    forall p | p in PairsAt(cands, live) ensures p in PassingPairs(key, f) {
      var i :| i in live && i < |cands| && cands[i] == p;
    }
    forall p | p in PassingPairs(key, f) ensures p in PairsAt(cands, live) {
      assert Passes(key, f, p.id);
    }
  }

  /** The IDs of the range that score at least the floor. */
  ghost function ReachingFloor(key: nat -> nat, f: Filter): set<nat> {
    set id: nat | f.lo <= id < f.hi && key(id) >= f.floor
  }

  /** Those among them in one of the eight groups of IDs that the warps own. */
  ghost function GroupReachingFloor(key: nat -> nat, f: Filter, g: nat): set<nat> {
    set id: nat | f.lo <= id < f.hi && key(id) >= f.floor && (id / 16) % 8 == g
  }

  /** The accept decision in terms of scores: at least k tokens score at least the floor, and
      no group has more of them than slots and spill hold. */
  ghost predicate FloorSuffices(key: nat -> nat, f: Filter, cap: nat, spillCap: nat, k: nat) {
    && |ReachingFloor(key, f)| >= k
    && forall g :: 0 <= g < 8 ==> |GroupReachingFloor(key, f, g)| <= cap + spillCap
  }

  /** As many pairs as IDs. */
  lemma {:induction false} PairsOfIds(key: nat -> nat, ids: set<nat>, pairs: set<Pair>)
    requires forall p :: p in pairs <==> p.id in ids && p.key == key(p.id)
    ensures |pairs| == |ids|
    decreases |ids|
  {
    if ids == {} {
      assert pairs == {};
    } else {
      var id := SomeMember(ids);
      PairsOfIds(key, ids - {id}, pairs - {Pair(key(id), id)});
    }
  }

  lemma PassingCounts(key: nat -> nat, f: Filter)
    ensures |PassingPairs(key, f)| == |ReachingFloor(key, f)|
  {
    PairsOfIds(key, ReachingFloor(key, f), PassingPairs(key, f));
  }

  lemma SegmentCounts(key: nat -> nat, f: Filter, g: nat)
    ensures |SegmentPairs(key, f, SEGMENTS, g)| == |GroupReachingFloor(key, f, g)|
  {
    PairsOfIds(key, GroupReachingFloor(key, f, g), SegmentPairs(key, f, SEGMENTS, g));
  }

  lemma CountsMeasureSegments(key: nat -> nat, f: Filter, tiles: nat, s: nat)
    requires s < SEGMENTS && f.hi <= tiles * (TILE_LANES * SEGMENTS)
    ensures |SegmentList(key, f, tiles, s)| == |GroupReachingFloor(key, f, s)|
  {
    SegmentCounts(key, f, s);
    EmittedIsSegment(key, f, SEGMENTS, s, tiles);
    NoDuplicatesCardinality(SegmentList(key, f, tiles, s));
  }

  /** Published counts decide acceptance exactly as the scores do. */
  lemma AcceptanceIsFloorSuffices(
      view: StorageView, cap: nat, spillCap: nat, key: nat -> nat, f: Filter, tiles: nat, k: nat)
    requires |view.counts| == SEGMENTS && cap > 0
    requires |view.scores| == |view.indices| == SEGMENTS * cap && |view.spill| == SEGMENTS * spillCap
    requires forall s :: 0 <= s < SEGMENTS ==> RowSegmentHolds(view, cap, spillCap, key, f, tiles, s)
    requires f.hi <= ID_LIMIT && f.hi <= tiles * (TILE_LANES * SEGMENTS) && NumericScores(key)
    ensures RowAccepted(view.counts, cap, spillCap, k) <==> FloorSuffices(key, f, cap, spillCap, k)
    ensures RowAccepted(view.counts, cap, spillCap, k) ==>
      var cands, live := Entries(view, cap), RunPositions(LiveRuns(view.counts, cap, spillCap));
      CandidatesPublished(cands, live) && PairsAt(cands, live) == PassingPairs(key, f)
  {
    forall s | 0 <= s < SEGMENTS ensures view.counts[s] == |GroupReachingFloor(key, f, s)| {
      CountsMeasureSegments(key, f, tiles, s);
      assert RowSegmentHolds(view, cap, spillCap, key, f, tiles, s);
    }
    PassingCounts(key, f);
    if !Overflows(view.counts, cap, spillCap) {
      var cands, live := Entries(view, cap), RunPositions(LiveRuns(view.counts, cap, spillCap));
      RowHoldsExactly(view, cap, spillCap, key, f, tiles);
      LivePairsArePassing(cands, live, key, f);
      NothingDropped(view.counts, cap, spillCap);
      PairsAtCardinality(cands, live);
    }
  }

  /** Keeping only candidates at or above a floor does not change the Top-k of the range,
      whatever the floor, once k of them passed. */
  lemma FloorKeepsTopK(key: nat -> nat, f: Filter, chosen: set<Pair>, k: nat)
    requires f.lo <= f.hi && |ReachingFloor(key, f)| >= k && IsTopK(PassingPairs(key, f), chosen, k)
    ensures IsTopK(RangePairs(key, f.lo, f.hi), chosen, k)
  {
    PassingCounts(key, f);
    FilterTopK(RangePairs(key, f.lo, f.hi), PassingPairs(key, f), chosen, k);
  }

  /** Produce and select one row. The row is either exact, or flagged and filled with -1;
      it is flagged exactly when its range exceeds k and the floor does not suffice. */
  method FusedTopKRow(
      scratch: SelectionScratch, key: nat -> nat, f: Filter, tiles: nat, k: nat, segmented: bool, output: array<int>)
    returns (failure: nat)
    requires scratch.Valid() && NumericScores(key) && k > 0 && output.Length == k
    requires f.hi <= ID_LIMIT && f.hi <= tiles * (TILE_LANES * SEGMENTS)
    modifies scratch, scratch.scores, scratch.indices, scratch.spill, scratch.counts, scratch.histogram, output
    ensures failure == 0 <==>
      Max(0, f.hi - f.lo) <= k || FloorSuffices(key, f, scratch.segmentCapacity, scratch.spillCapacity, k)
    ensures failure == 0 ==> IsExactRow(key, output[..], f.lo, f.hi, k)
    ensures failure != 0 ==> failure == 1 && output[..] == seq(k, j => -1)
  {
    ProduceCandidates(scratch, key, f, tiles);
    AcceptanceIsFloorSuffices(ViewOf(scratch), scratch.segmentCapacity, scratch.spillCapacity, key, f, tiles, k);
    ghost var picked;
    failure, picked := scratch.SelectRow(k, f.lo, f.hi, segmented, output);
    if Max(0, f.hi - f.lo) <= k {
      ShortRow(key, f.lo, f.hi, k, output[..]);
    } else if failure == 0 {
      FloorKeepsTopK(key, f, Members(picked), k);
      RowFromPairs(key, f.lo, f.hi, k, picked, output[..]);
    }
  }
}
