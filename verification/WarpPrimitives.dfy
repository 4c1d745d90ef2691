/** Warp-level building blocks: ballots, aggregated reservations, aggregated
    histogram updates, the two shuffle suffix scans and the byte they select.
    The lanes of one warp act together, as the hardware intrinsics require. */
module WarpPrimitives {

  const WARP_SIZE: nat := 32
  const BINS: nat := 256
  const BINS_PER_LANE: nat := 8

  // ---------- aggregated reservation ----------

  /** How many of the first `n` lanes voted: `__popc` of a ballot restricted to the
      lanes below `n`. */
  function Ones(flags: seq<bool>, n: nat): (count: nat)
    requires n <= |flags|
    ensures count <= n
  {
    if n == 0 then 0 else Ones(flags, n - 1) + if flags[n - 1] then 1 else 0
  }

  /** One atomic add per warp: the leader takes a block of the counter as large as the
      ballot, and each active lane indexes it by the number of active lanes below. */
  method Reserve(counter: nat, active: seq<bool>) returns (next: nat, offsets: seq<int>)
    ensures |offsets| == |active|
    ensures next == counter + Ones(active, |active|)
    ensures forall l :: 0 <= l < |active| ==> offsets[l] == if active[l] then counter + Ones(active, l) else -1
  {
    var votes := Ones(active, |active|);
    if votes == 0 {
      forall l | 0 <= l < |active| ensures !active[l] {
        OnesMonotone(active, l, |active|);
      }
      return counter, seq(|active|, l => -1);
    }
    var base := counter;
    next := counter + votes;
    offsets := seq(|active|, l requires 0 <= l < |active| => if active[l] then base + Ones(active, l) else -1);
  }

  lemma {:induction false} OnesMonotone(flags: seq<bool>, a: nat, b: nat)
    requires a <= b <= |flags|
    ensures Ones(flags, a) <= Ones(flags, b) <= Ones(flags, a) + (b - a)
    ensures a < b && flags[a] ==> Ones(flags, a) < Ones(flags, b)
  {
    if a < b {
      OnesMonotone(flags, a, b - 1);
    }
  }

  lemma {:induction false} OnesSlice(flags: seq<bool>, lo: nat, hi: nat, n: nat)
    requires lo <= hi <= |flags| && n <= hi - lo
    ensures Ones(flags[lo..hi], n) == Ones(flags, lo + n) - Ones(flags, lo)
  {
    if n > 0 {
      OnesSlice(flags, lo, hi, n - 1);
    }
  }

  /** The offsets a reservation hands out are distinct and leave no gap: each slot of
      the reserved block belongs to exactly one active lane. */
  lemma {:induction false} ReservationIsGapFree(active: seq<bool>, n: nat, slot: nat) returns (lane: nat)
    requires n <= |active| && slot < Ones(active, n)
    ensures lane < n && active[lane] && Ones(active, lane) == slot
    ensures forall other :: 0 <= other < n && active[other] && Ones(active, other) == slot ==> other == lane
  {
    if active[n - 1] && Ones(active, n - 1) == slot {
      lane := n - 1;
    } else {
      lane := ReservationIsGapFree(active, n - 1, slot);
    }
    forall other | 0 <= other < n && active[other] && Ones(active, other) == slot
      ensures other == lane
    {
      if other < lane { OnesMonotone(active, other, lane); }
      if lane < other { OnesMonotone(active, lane, other); }
    }
  }

  // ---------- aggregated histogram update ----------

  /** The active positions of one warp's block that fall in bin `b` (`__match_any_sync`). */
  function Peers(active: seq<bool>, bins: seq<nat>, lo: nat, hi: nat, b: nat): set<nat>
    requires lo <= hi <= |active| == |bins|
  {
    set i | lo <= i < hi && active[i] && bins[i] == b
  }

  /** Only the lowest peer adds, and it adds for all of them: the block changes the
      histogram exactly as if every active lane had added one. */
  method WarpHistogramAdd(histogram: array<nat>, active: seq<bool>, bins: seq<nat>, lo: nat, hi: nat)
    requires histogram.Length == BINS
    requires lo <= hi <= |active| == |bins|
    requires forall i :: 0 <= i < |bins| ==> bins[i] < BINS
    modifies histogram
    ensures forall b :: 0 <= b < BINS ==> histogram[b] == old(histogram[b]) + |Peers(active, bins, lo, hi, b)|
  {
    var i := lo;
    while i < hi
      invariant lo <= i <= hi
      invariant forall b :: 0 <= b < BINS ==>
        histogram[b] == old(histogram[b]) +
          if Peers(active, bins, lo, i, b) == {} then 0 else |Peers(active, bins, lo, hi, b)|
    {
      if active[i] {
        var peers := Peers(active, bins, lo, hi, bins[i]);
        assert i in peers;
        if Peers(active, bins, lo, i, bins[i]) == {} {
          histogram[bins[i]] := histogram[bins[i]] + |peers|;
        }
        assert i in Peers(active, bins, lo, i + 1, bins[i]);
      }
      forall b | 0 <= b < BINS && !(active[i] && bins[i] == b)
        ensures Peers(active, bins, lo, i + 1, b) == Peers(active, bins, lo, i, b)
      {
      }
      i := i + 1;
    }
  }

  // ---------- suffix scans ----------

  /** Sum of the entries from position `from` on. */
  function TailSum(x: seq<nat>, from: nat): nat
    decreases |x| - from
  {
    if from >= |x| then 0 else x[from] + TailSum(x, from + 1)
  }

  /** Sum of every `stride`-th entry from position `from` on. */
  ghost function StrideSum(x: seq<nat>, from: nat, stride: nat): nat
    requires stride > 0
    decreases |x| - from
  {
    if from >= |x| then 0 else x[from] + StrideSum(x, from + stride, stride)
  }

  /** Sum of at most `width` entries from position `from` on. */
  ghost function WindowSum(x: seq<nat>, from: nat, width: nat): nat
    decreases width
  {
    if width == 0 || from >= |x| then 0 else x[from] + WindowSum(x, from + 1, width - 1)
  }

  lemma {:induction false} StrideHalves(x: seq<nat>, from: nat, stride: nat)
    requires stride > 0
    ensures StrideSum(x, from, stride) == StrideSum(x, from, 2 * stride) + StrideSum(x, from + stride, 2 * stride)
    decreases |x| - from
  {
    if from < |x| {
      StrideHalves(x, from + stride, stride);
    }
  }

  lemma {:induction false} StrideOne(x: seq<nat>, from: nat)
    ensures StrideSum(x, from, 1) == TailSum(x, from)
    decreases |x| - from
  {
    if from < |x| {
      StrideOne(x, from + 1);
    }
  }

  lemma {:induction false} WindowDoubles(x: seq<nat>, from: nat, width: nat, more: nat)
    ensures WindowSum(x, from, width + more) == WindowSum(x, from, width) + WindowSum(x, from + width, more)
    decreases width
  {
    if width > 0 && from < |x| {
      WindowDoubles(x, from + 1, width - 1, more);
    }
  }

  lemma {:induction false} WideWindow(x: seq<nat>, from: nat, width: nat)
    requires from + width >= |x|
    ensures WindowSum(x, from, width) == TailSum(x, from)
    decreases width
  {
    if width > 0 && from < |x| {
      WideWindow(x, from + 1, width - 1);
    }
  }

  /** One `__shfl_down_sync` step with the in-range guard. */
  function ShuffleDownAdd(sums: seq<nat>, offset: nat): (next: seq<nat>)
    ensures |next| == |sums|
  {
    seq(|sums|, l requires 0 <= l < |sums| => sums[l] + if l + offset < |sums| then sums[l + offset] else 0)
  }

  /** Offsets 1, 2, .., 16, as the repair and sampling kernels run them. */
  method SuffixScanAscending(x: seq<nat>) returns (sums: seq<nat>)
    requires |x| == WARP_SIZE
    ensures |sums| == |x| && forall l :: 0 <= l < |x| ==> sums[l] == TailSum(x, l)
  {
    sums := x;
    var offset := 1;
    while offset < WARP_SIZE
      invariant 1 <= offset && |sums| == |x|
      invariant forall l :: 0 <= l < |x| ==> sums[l] == WindowSum(x, l, offset)
      decreases WARP_SIZE - offset
    {
      forall l | 0 <= l < |x|
        ensures ShuffleDownAdd(sums, offset)[l] == WindowSum(x, l, 2 * offset)
      {
        WindowDoubles(x, l, offset, offset);
      }
      sums := ShuffleDownAdd(sums, offset);
      offset := 2 * offset;
    }
    forall l | 0 <= l < |x| ensures sums[l] == TailSum(x, l) {
      WideWindow(x, l, offset);
    }
  }

  /** Offsets 16, 8, .., 1, as the fused kernel runs them. */
  method SuffixScanDescending(x: seq<nat>) returns (sums: seq<nat>)
    requires |x| == WARP_SIZE
    ensures |sums| == |x| && forall l :: 0 <= l < |x| ==> sums[l] == TailSum(x, l)
  {
    sums := x;
    var offset := WARP_SIZE / 2;
    ghost var stride := WARP_SIZE;
    while offset > 0
      invariant (stride == 1 && offset == 0) || stride == 2 * offset
      invariant stride in {32, 16, 8, 4, 2, 1} && |sums| == |x|
      invariant forall l :: 0 <= l < |x| ==> sums[l] == StrideSum(x, l, stride)
      decreases offset
    {
      forall l | 0 <= l < |x|
        ensures ShuffleDownAdd(sums, offset)[l] == StrideSum(x, l, offset)
      {
        StrideHalves(x, l, offset);
      }
      sums := ShuffleDownAdd(sums, offset);
      stride := offset;
      offset := offset / 2;
    }
    forall l | 0 <= l < |x| ensures sums[l] == TailSum(x, l) {
      StrideOne(x, l);
    }
  }

  // ---------- byte selection ----------

  lemma {:induction false} TailSumSteps(h: seq<nat>, from: nat, to: nat)
    requires from <= to <= |h|
    ensures TailSum(h, from) >= TailSum(h, to)
    ensures from < to ==> TailSum(h, from) >= h[from] + TailSum(h, to)
    decreases |h| - from
  {
    if from < to {
      TailSumSteps(h, from + 1, to);
    }
  }

  /** The one bin whose count brackets the rank, counting from the top bin down. */
  ghost predicate Brackets(h: seq<nat>, rank: nat, byte: nat) {
    byte < |h| && TailSum(h, byte + 1) < rank <= TailSum(h, byte)
  }

  lemma BracketIsUnique(h: seq<nat>, rank: nat, a: nat, b: nat)
    requires Brackets(h, rank, a) && Brackets(h, rank, b)
    ensures a == b
  {
    if a < b { TailSumSteps(h, a + 1, b); }
    if b < a { TailSumSteps(h, b + 1, a); }
  }

  /** Sum of lane `lane`'s eight consecutive bins. */
  function LaneTotal(h: seq<nat>, lane: nat): nat
    requires |h| == BINS && lane < WARP_SIZE
  {
    var i := lane * BINS_PER_LANE;
    h[i] + h[i + 1] + h[i + 2] + h[i + 3] + h[i + 4] + h[i + 5] + h[i + 6] + h[i + 7]
  }

  function LaneTotals(h: seq<nat>): (totals: seq<nat>)
    requires |h| == BINS
    ensures |totals| == WARP_SIZE
  {
    seq(WARP_SIZE, lane requires 0 <= lane < WARP_SIZE => LaneTotal(h, lane))
  }

  lemma EightBins(h: seq<nat>, i: nat)
    requires i + 8 <= |h|
    ensures TailSum(h, i) ==
      h[i] + h[i + 1] + h[i + 2] + h[i + 3] + h[i + 4] + h[i + 5] + h[i + 6] + h[i + 7] + TailSum(h, i + 8)
  {
    assert TailSum(h, i + 6) == h[i + 6] + h[i + 7] + TailSum(h, i + 8);
    assert TailSum(h, i + 4) == h[i + 4] + h[i + 5] + TailSum(h, i + 6);
    assert TailSum(h, i + 2) == h[i + 2] + h[i + 3] + TailSum(h, i + 4);
    assert TailSum(h, i) == h[i] + h[i + 1] + TailSum(h, i + 2);
  }

  lemma {:induction false} LaneTailIsBinTail(h: seq<nat>, lane: nat)
    requires |h| == BINS && lane <= WARP_SIZE
    ensures TailSum(LaneTotals(h), lane) == TailSum(h, lane * BINS_PER_LANE)
    decreases WARP_SIZE - lane
  {
    if lane < WARP_SIZE {
      LaneTailIsBinTail(h, lane + 1);
      EightBins(h, lane * BINS_PER_LANE);
    }
  }

  /** Every lane walks its eight bins from the top; whichever lane brackets the rank
      reports the bin and the number of keys in higher bins. */
  method SelectByte(h: seq<nat>, rank: nat, ascending: bool) returns (found: bool, byte: nat, greater: nat)
    requires |h| == BINS
    ensures found <==> 1 <= rank <= TailSum(h, 0)
    ensures found ==> Brackets(h, rank, byte) && greater == TailSum(h, byte + 1)
  {
    var totals := LaneTotals(h);
    var suffix;
    if ascending {
      suffix := SuffixScanAscending(totals);
    } else {
      suffix := SuffixScanDescending(totals);
    }
    found, byte, greater := false, 0, 0;
    var lane := 0;
    LaneTailIsBinTail(h, 0);
    while lane < WARP_SIZE
      invariant 0 <= lane <= WARP_SIZE
      invariant found ==> Brackets(h, rank, byte) && greater == TailSum(h, byte + 1)
      invariant !found && rank <= TailSum(h, 0) ==> rank <= TailSum(h, lane * BINS_PER_LANE)
    {
      var above := suffix[lane] - totals[lane];
      var item := BINS_PER_LANE;
      LaneTailIsBinTail(h, lane);
      EightBins(h, lane * BINS_PER_LANE);
      while item > 0
        invariant 0 <= item <= BINS_PER_LANE
        invariant above == TailSum(h, lane * BINS_PER_LANE + item)
        invariant found ==> Brackets(h, rank, byte) && greater == TailSum(h, byte + 1)
        invariant !found && rank <= TailSum(h, 0) ==>
          rank <= TailSum(h, lane * BINS_PER_LANE) &&
          (rank <= TailSum(h, lane * BINS_PER_LANE + BINS_PER_LANE) || rank > TailSum(h, lane * BINS_PER_LANE + item))
      {
        item := item - 1;
        var next := above + h[lane * BINS_PER_LANE + item];
        if above < rank && rank <= next {
          found, byte, greater := true, lane * BINS_PER_LANE + item, above;
        }
        above := next;
      }
      lane := lane + 1;
    }
    if found {
      TailSumSteps(h, 0, byte);
    }
  }
}
