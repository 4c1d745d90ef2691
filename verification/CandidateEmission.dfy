/** What the math warps of both score producers emit: each warp owns one ID segment,
    walks the key-value tiles and compacts the IDs that pass its filter. */
module CandidateEmission {
  import opened Arithmetic
  import opened Exactness

  const TILE_LANES: nat := 16

  /** Lanes 4q and 4q+1 of a warp hold IDs q and q+8 of its sixteen, so compaction by
      lane order lists them as 0, 8, 1, 9, .. */
  function LaneId(lane: nat): (id: nat)
    requires lane < TILE_LANES
    ensures id < TILE_LANES
  {
    lane / 2 + 8 * (lane % 2)
  }

  /** How many of the lanes below `lane` hold a score: the first two in each group of four. */
  ghost function ScoreLanesBelow(lane: nat): nat {
    if lane == 0 then 0 else ScoreLanesBelow(lane - 1) + if (lane - 1) % 4 < 2 then 1 else 0
  }

  /** Lane `4q` holds the score of ID `q` of its warp's sixteen and lane `4q + 1` that of ID
      `q + 8`; compaction lists them by the number of such lanes below. */
  lemma {:induction false} LanesInOrder(q: nat)
    ensures ScoreLanesBelow(4 * q) == 2 * q && ScoreLanesBelow(4 * q + 1) == 2 * q + 1
    ensures q < 8 ==> LaneId(ScoreLanesBelow(4 * q)) == q && LaneId(ScoreLanesBelow(4 * q + 1)) == q + 8
  {
    CountedLanes(q, 4 * q);
    assert (2 * q) / 2 == q && (2 * q) % 2 == 0 && (2 * q + 1) / 2 == q && (2 * q + 1) % 2 == 1;
  }

  lemma {:induction false} CountedLanes(q: nat, first: nat)
    requires first == 4 * q
    ensures ScoreLanesBelow(first) == 2 * q && ScoreLanesBelow(first + 1) == 2 * q + 1
  {
    if q > 0 {
      CountedLanes(q - 1, first - 4);
      OneGroup(q - 1, first - 4);
    }
    OneGroup(q, first);
  }

  /** A group of four lanes adds its first and its second. */
  lemma OneGroup(q: nat, first: nat)
    requires first == 4 * q
    ensures ScoreLanesBelow(first + 1) == ScoreLanesBelow(first) + 1
    ensures ScoreLanesBelow(first + 4) == ScoreLanesBelow(first) + 2
  {
    assert first % 4 == 0 && (first + 1) % 4 == 1 && (first + 2) % 4 == 2 && (first + 3) % 4 == 3;
    assert ScoreLanesBelow(first + 2) == ScoreLanesBelow(first) + 2;
    assert ScoreLanesBelow(first + 3) == ScoreLanesBelow(first) + 2;
  }

  function LaneOfId(id: nat): (lane: nat)
    requires id < TILE_LANES
    ensures lane < TILE_LANES && LaneId(lane) == id
  {
    if id < 8 then 2 * id else 2 * (id - 8) + 1
  }

  /** The `v`-th ID the warp of one segment looks at, among `warps` warps. */
  function VisitedId(warps: nat, segment: nat, v: nat): nat {
    (v / TILE_LANES) * (TILE_LANES * warps) + segment * TILE_LANES + LaneId(v % TILE_LANES)
  }

  /** The row's range and score floor; repair has no floor. */
  datatype Filter = Filter(lo: nat, hi: nat, floor: nat)

  predicate Passes(key: nat -> nat, f: Filter, id: nat) {
    f.lo <= id < f.hi && key(id) >= f.floor
  }

  /** Everything one warp emits over its first `n` visits, in order, overflow included. */
  function Emitted(key: nat -> nat, f: Filter, warps: nat, segment: nat, n: nat): seq<Pair> {
    if n == 0 then []
    else
      var id := VisitedId(warps, segment, n - 1);
      Emitted(key, f, warps, segment, n - 1) + if Passes(key, f, id) then [Pair(key(id), id)] else []
  }

  lemma Decompose(warps: nat, segment: nat, v: nat)
    requires segment < warps
    ensures var id := VisitedId(warps, segment, v);
      id % TILE_LANES == LaneId(v % TILE_LANES) && id / TILE_LANES == (v / TILE_LANES) * warps + segment
  {
    var tile, lane := v / TILE_LANES, LaneId(v % TILE_LANES);
    assert tile * (TILE_LANES * warps) == (tile * warps) * TILE_LANES;
    assert VisitedId(warps, segment, v) == (tile * warps + segment) * TILE_LANES + lane;
  }

  /** A warp only meets IDs of its own segment, each at one visit. */
  lemma VisitFacts(warps: nat, segment: nat, v: nat)
    requires segment < warps
    ensures (VisitedId(warps, segment, v) / TILE_LANES) % warps == segment
    ensures v == ((VisitedId(warps, segment, v) / TILE_LANES) / warps) * TILE_LANES +
                 LaneOfId(VisitedId(warps, segment, v) % TILE_LANES)
  {
    Decompose(warps, segment, v);
    QuotientAndRemainder(VisitedId(warps, segment, v) / TILE_LANES, warps, v / TILE_LANES, segment);
  }

  lemma IdParts(warps: nat, segment: nat, tile: nat, id: nat)
    requires segment < warps && (id / TILE_LANES) % warps == segment && tile == (id / TILE_LANES) / warps
    ensures id == tile * (TILE_LANES * warps) + segment * TILE_LANES + id % TILE_LANES
  {
    var group := id / TILE_LANES;
    assert group == tile * warps + segment;
    assert group * TILE_LANES == tile * (TILE_LANES * warps) + segment * TILE_LANES;
  }

  /** Every ID of the segment below the last tile is met. */
  lemma EveryIdVisited(warps: nat, segment: nat, tiles: nat, id: nat) returns (v: nat)
    requires segment < warps && (id / TILE_LANES) % warps == segment && id < tiles * (TILE_LANES * warps)
    ensures v < tiles * TILE_LANES && VisitedId(warps, segment, v) == id
  {
    var tile := (id / TILE_LANES) / warps;
    IdParts(warps, segment, tile, id);
    TileInside(tile, tiles, warps, id);
    v := VisitOfParts(warps, segment, tile, tiles, id % TILE_LANES);
  }

  lemma VisitOfParts(warps: nat, segment: nat, tile: nat, tiles: nat, rest: nat) returns (v: nat)
    requires tile < tiles && rest < TILE_LANES
    ensures v < tiles * TILE_LANES
    ensures VisitedId(warps, segment, v) == tile * (TILE_LANES * warps) + segment * TILE_LANES + rest
  {
    v := tile * TILE_LANES + LaneOfId(rest);
    VisitAt(warps, segment, tile, LaneOfId(rest));
  }

  lemma VisitAt(warps: nat, segment: nat, tile: nat, lane: nat)
    requires lane < TILE_LANES
    ensures VisitedId(warps, segment, tile * TILE_LANES + lane) ==
      tile * (TILE_LANES * warps) + segment * TILE_LANES + LaneId(lane)
  {
    QuotientAndRemainder(tile * TILE_LANES + lane, TILE_LANES, tile, lane);
  }

  lemma TileInside(tile: nat, tiles: nat, warps: nat, id: nat)
    requires id < tiles * (TILE_LANES * warps) && tile * (TILE_LANES * warps) <= id
    ensures tile < tiles
  {
    if tiles < tile { ScaledStep(tiles, tile, TILE_LANES * warps); }
  }

  /** What one segment's warp emits: exactly the passing IDs it visited, once each. */
  lemma {:induction false} EmittedContents(key: nat -> nat, f: Filter, warps: nat, segment: nat, n: nat)
    requires segment < warps
    ensures NoDuplicates(Emitted(key, f, warps, segment, n))
    ensures forall p :: p in Emitted(key, f, warps, segment, n) ==>
      p == Pair(key(p.id), p.id) && Passes(key, f, p.id) && (p.id / TILE_LANES) % warps == segment &&
      ((p.id / TILE_LANES) / warps) * TILE_LANES + LaneOfId(p.id % TILE_LANES) < n
    ensures forall v :: 0 <= v < n && Passes(key, f, VisitedId(warps, segment, v)) ==>
      Pair(key(VisitedId(warps, segment, v)), VisitedId(warps, segment, v)) in Emitted(key, f, warps, segment, n)
  {
    if n > 0 {
      EmittedContents(key, f, warps, segment, n - 1);
      VisitFacts(warps, segment, n - 1);
    }
  }

  /** The passing pairs of one ID segment. */
  ghost function SegmentPairs(key: nat -> nat, f: Filter, warps: nat, segment: nat): set<Pair>
    requires warps > 0
  {
    set id | f.lo <= id < f.hi && Passes(key, f, id) && (id / TILE_LANES) % warps == segment :: Pair(key(id), id)
  }

  /** Once the tiles reach past the range, a warp has emitted exactly its segment. */
  lemma EmittedIsSegment(key: nat -> nat, f: Filter, warps: nat, segment: nat, tiles: nat)
    requires segment < warps && f.hi <= tiles * (TILE_LANES * warps)
    ensures NoDuplicates(Emitted(key, f, warps, segment, tiles * TILE_LANES))
    ensures Members(Emitted(key, f, warps, segment, tiles * TILE_LANES)) == SegmentPairs(key, f, warps, segment)
  {
    var all := Emitted(key, f, warps, segment, tiles * TILE_LANES);
    EmittedContents(key, f, warps, segment, tiles * TILE_LANES);
    forall p | p in SegmentPairs(key, f, warps, segment) ensures p in all {
      var v := EveryIdVisited(warps, segment, tiles, p.id);
    }
    forall p | p in all ensures p in SegmentPairs(key, f, warps, segment) {
    }
  }

  /** All passing pairs of a range. */
  ghost function PassingPairs(key: nat -> nat, f: Filter): set<Pair> {
    set id | f.lo <= id < f.hi && Passes(key, f, id) :: Pair(key(id), id)
  }

  /** A warp emits at most one pair per visit, so a segment that has a place for every ID of
      its warp never overflows. */
  lemma {:induction false} EmittedFits(
      key: nat -> nat, f: Filter, warps: nat, segment: nat, tiles: nat, cap: nat, n: nat)
    requires n <= tiles * TILE_LANES <= cap
    ensures |Emitted(key, f, warps, segment, n)| <= Min(n, cap)
  {
    if n > 0 {
      EmittedFits(key, f, warps, segment, tiles, cap, n - 1);
    }
  }

  // ---------- interleaved warps ----------

  /** How many IDs a warp has looked at, from the steps it still has: one for each ID and a
      last one that publishes its count. */
  function Visits(tiles: nat, left: nat): nat
    requires left <= tiles * TILE_LANES + 1
  {
    if left == 0 then tiles * TILE_LANES else tiles * TILE_LANES + 1 - left
  }

  /** Where each warp's share of a storage begins. */
  function Bases(warps: nat, cap: nat): (bases: seq<nat>)
    ensures |bases| == warps && forall s :: 0 <= s < warps ==> bases[s] == s * cap
  {
    seq(warps, s requires 0 <= s < warps => s * cap)
  }

  /** The shares lie inside the storage and apart from one another. */
  ghost predicate AreApart(bases: seq<nat>, warps: nat, cap: nat, total: nat) {
    && |bases| == warps && (forall s :: 0 <= s < warps ==> bases[s] + cap <= total)
    && forall s, t :: 0 <= s < t < warps ==> bases[s] + cap <= bases[t]
  }

  lemma BasesAreApart(warps: nat, cap: nat)
    ensures AreApart(Bases(warps, cap), warps, cap, warps * cap)
  {
    forall s | 0 <= s < warps ensures s * cap + cap <= warps * cap {
      ScaledStep(s, warps, cap);
    }
    forall s, t | 0 <= s < t < warps ensures s * cap + cap <= t * cap {
      ScaledStep(s, t, cap);
    }
  }

  /** Some warp has steps left. */
  predicate Unfinished(left: seq<nat>) {
    exists s :: 0 <= s < |left| && left[s] > 0
  }

  /** One step of the chosen warp brings the end nearer. */
  lemma StepTaken(left: seq<nat>, s: nat)
    requires s < |left| && left[s] > 0
    ensures SumFirst(left[s := left[s] - 1], |left|) < SumFirst(left, |left|)
  {
    var rest := left[s := left[s] - 1];
    SumUpdate(rest, |left|, s, 1);
    assert rest[s := rest[s] + 1] == left;
  }

  /** Segments do not touch each other's storage. */
  ghost predicate OthersUnchanged<T>(before: seq<T>, after: seq<T>, lo: nat, hi: nat) {
    |after| == |before| && forall i :: 0 <= i < |before| && !(lo <= i < hi) ==> after[i] == before[i]
  }
}
