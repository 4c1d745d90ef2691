/** The hand-over of candidate slots inside one CTA: math threads fill the slots, selection
    threads empty them, and two barriers a slot keep them apart. */
module SlotHandoff {
  import opened Arithmetic
  import opened Exactness
  import opened Outcomes

  /** An mbarrier: how many phases have completed, and the arrivals in the current one. */
  datatype Barrier = Barrier(completed: nat, arrivals: nat) {
    /** One arrival; the last of the expected ones completes the phase. */
    function Arrive(expected: nat): Barrier {
      if arrivals + 1 == expected then Barrier(completed + 1, 0) else Barrier(completed, arrivals + 1)
    }

    /** A wait on a parity returns once the phase of that parity is not the current one. */
    predicate Passed(parity: nat) {
      completed % 2 != parity
    }
  }

  // ---------- one slot ----------

  /** Who has arrived more than `n` times. */
  ghost function Ahead(uses: seq<nat>, n: nat): set<nat> {
    set a: nat | a < |uses| && uses[a] > n
  }

  /** Everybody has arrived once for each completed phase, and some of them once more. */
  ghost predicate InStep(b: Barrier, uses: seq<nat>) {
    && b.arrivals == |Ahead(uses, b.completed)| < |uses|
    && forall a :: 0 <= a < |uses| ==> b.completed <= uses[a] <= b.completed + 1
  }

  lemma OneMoreAhead(uses: seq<nat>, n: nat, a: nat)
    requires a < |uses| && uses[a] == n
    ensures |Ahead(uses[a := n + 1], n)| == |Ahead(uses, n)| + 1
  {
    assert Ahead(uses[a := n + 1], n) == Ahead(uses, n) + {a};
  }

  /** All are ahead when there are as many of them as there are. */
  lemma AllAhead(uses: seq<nat>, n: nat)
    ensures |Ahead(uses, n)| == |uses| <==> forall a :: 0 <= a < |uses| ==> uses[a] > n
  {
    SubsetCardinality(Ahead(uses, n), Interval(0, |uses|));
    if |Ahead(uses, n)| == |uses| {
      forall a | 0 <= a < |uses| ensures uses[a] > n {
        assert a in Interval(0, |uses|);
      }
    }
    if forall a :: 0 <= a < |uses| ==> uses[a] > n {
      assert Ahead(uses, n) == Interval(0, |uses|);
    }
  }

  lemma ArriveKeepsStep(b: Barrier, uses: seq<nat>, a: nat)
    requires InStep(b, uses) && a < |uses| && uses[a] == b.completed
    ensures InStep(b.Arrive(|uses|), uses[a := uses[a] + 1])
  {
    var next := uses[a := uses[a] + 1];
    OneMoreAhead(uses, b.completed, a);
    AllAhead(next, b.completed);
    assert Ahead(next, b.completed + 1) == {};
  }

  /** A phase that is still open waits for somebody. */
  lemma SomeoneMissing(b: Barrier, uses: seq<nat>) returns (a: nat)
    requires InStep(b, uses)
    ensures a < |uses| && uses[a] == b.completed
  {
    AllAhead(uses, b.completed);
    a :| 0 <= a < |uses| && !(uses[a] > b.completed);
  }

  /** What holds of one slot at any time: `filled[t]` counts the uses that math thread `t` has
      filled, `emptied[c]` those that selection thread `c` has emptied. */
  ghost predicate SlotOk(ready: Barrier, free: Barrier, filled: seq<nat>, emptied: seq<nat>) {
    && InStep(ready, filled) && InStep(free, emptied)
    && free.completed <= ready.completed
    && (forall t :: 0 <= t < |filled| ==> filled[t] <= free.completed + 1)
    && (forall c :: 0 <= c < |emptied| ==> emptied[c] <= ready.completed)
  }

  /** The first wait of a math thread lets it in exactly when all have emptied the use before. */
  lemma FreeMeansEmptied(ready: Barrier, free: Barrier, filled: seq<nat>, emptied: seq<nat>, t: nat)
    requires SlotOk(ready, free, filled, emptied) && t < |filled|
    ensures free.Passed(1 - filled[t] % 2) <==> filled[t] == free.completed
    ensures filled[t] <= free.completed ==> filled[t] == free.completed == ready.completed
  {
    assert filled[t] == free.completed || filled[t] == free.completed + 1;
  }

  /** A math thread that is ahead of no selection thread finds its slot emptied. */
  lemma UnaheadIsEmptied(ready: Barrier, free: Barrier, filled: seq<nat>, emptied: seq<nat>, t: nat)
    requires SlotOk(ready, free, filled, emptied) && t < |filled|
    requires forall c :: 0 <= c < |emptied| ==> filled[t] <= emptied[c]
    ensures filled[t] == free.completed
  {
    var c := SomeoneMissing(free, emptied);
  }

  /** The second wait of a math thread, on the use it has just filled, ends when all have
      emptied that use. */
  lemma DrainMeansEmptied(
      ready: Barrier, free: Barrier, filled: seq<nat>, emptied: seq<nat>, t: nat, s: nat, slots: nat)
    requires t < |filled| && filled[t] > 0 && slots > 0 && s == (filled[t] - 1) % slots
    requires SlotOk(ready, free, UsesOf(filled, s, slots), emptied)
    ensures VisitsTo(filled[t], s, slots) == (filled[t] - 1) / slots + 1
    ensures free.Passed((filled[t] - 1) / slots % 2) <==> VisitsTo(filled[t], s, slots) == free.completed
  {
    OneMoreVisit(filled[t] - 1, s, slots);
    FreeMeansEmptied(ready, free, UsesOf(filled, s, slots), emptied, t);
  }

  /** The wait of a selection thread lets it in exactly when all have filled this use. */
  lemma ReadyMeansFilled(ready: Barrier, free: Barrier, filled: seq<nat>, emptied: seq<nat>, c: nat)
    requires SlotOk(ready, free, filled, emptied) && c < |emptied| && filled != []
    ensures ready.Passed(emptied[c] % 2) <==> emptied[c] < ready.completed
    ensures emptied[c] < ready.completed ==>
      emptied[c] == free.completed && forall t :: 0 <= t < |filled| ==> filled[t] == emptied[c] + 1
  {
    assert filled[0] <= free.completed + 1 <= emptied[c] + 1;
    assert ready.completed == emptied[c] || ready.completed == emptied[c] + 1;
  }

  lemma FillKeepsSlot(ready: Barrier, free: Barrier, filled: seq<nat>, emptied: seq<nat>, t: nat)
    requires SlotOk(ready, free, filled, emptied) && t < |filled| && filled[t] <= free.completed
    ensures SlotOk(ready.Arrive(|filled|), free, filled[t := filled[t] + 1], emptied)
  {
    ArriveKeepsStep(ready, filled, t);
  }

  lemma EmptyKeepsSlot(ready: Barrier, free: Barrier, filled: seq<nat>, emptied: seq<nat>, c: nat)
    requires SlotOk(ready, free, filled, emptied) && c < |emptied| && emptied[c] < ready.completed && filled != []
    ensures SlotOk(ready, free.Arrive(|emptied|), filled, emptied[c := emptied[c] + 1])
  {
    ReadyMeansFilled(ready, free, filled, emptied, c);
    ArriveKeepsStep(free, emptied, c);
    var next := emptied[c := emptied[c] + 1];
    assert next[c] >= free.Arrive(|emptied|).completed;
  }

  // ---------- the ring ----------

  /** How often each thread has been done with slot `s`, when block `i` goes to slot `i % slots`. */
  ghost function UsesOf(done: seq<nat>, s: nat, slots: nat): (uses: seq<nat>)
    requires s < slots
    ensures |uses| == |done| && forall a :: 0 <= a < |done| ==> uses[a] == VisitsTo(done[a], s, slots)
  {
    seq(|done|, a requires 0 <= a < |done| => VisitsTo(done[a], s, slots))
  }

  /** Finishing a block is one more use of its slot and of no other. */
  lemma UsesStep(done: seq<nat>, a: nat, s: nat, slots: nat)
    requires a < |done| && s < slots
    ensures
      var uses := UsesOf(done, s, slots);
      UsesOf(done[a := done[a] + 1], s, slots) == if s == done[a] % slots then uses[a := uses[a] + 1] else uses
  {
    OneMoreVisit(done[a], s, slots);
  }

  ghost predicate SlotsOk(ready: seq<Barrier>, free: seq<Barrier>, filled: seq<nat>, emptied: seq<nat>) {
    && |ready| == |free|
    && forall s {:trigger SlotOk(ready[s], free[s], UsesOf(filled, s, |ready|), UsesOf(emptied, s, |ready|))} ::
         0 <= s < |ready| ==> SlotOk(ready[s], free[s], UsesOf(filled, s, |ready|), UsesOf(emptied, s, |ready|))
  }

  lemma FillKeepsSlots(ready: seq<Barrier>, free: seq<Barrier>, filled: seq<nat>, emptied: seq<nat>, t: nat, s: nat)
    requires SlotsOk(ready, free, filled, emptied) && t < |filled| && |ready| > 0 && s == filled[t] % |ready|
    requires VisitsTo(filled[t], s, |ready|) <= free[s].completed
    ensures SlotsOk(ready[s := ready[s].Arrive(|filled|)], free, filled[t := filled[t] + 1], emptied)
  {
    forall r | 0 <= r < |ready|
      ensures SlotOk(ready[s := ready[s].Arrive(|filled|)][r], free[r],
                     UsesOf(filled[t := filled[t] + 1], r, |ready|), UsesOf(emptied, r, |ready|))
    {
      UsesStep(filled, t, r, |ready|);
      if r == s {
        FillKeepsSlot(ready[s], free[s], UsesOf(filled, s, |ready|), UsesOf(emptied, s, |ready|), t);
      }
    }
  }

  lemma EmptyKeepsSlots(ready: seq<Barrier>, free: seq<Barrier>, filled: seq<nat>, emptied: seq<nat>, c: nat, s: nat)
    requires SlotsOk(ready, free, filled, emptied) && c < |emptied| && |ready| > 0 && s == emptied[c] % |ready|
    requires VisitsTo(emptied[c], s, |ready|) < ready[s].completed && filled != []
    ensures SlotsOk(ready, free[s := free[s].Arrive(|emptied|)], filled, emptied[c := emptied[c] + 1])
  {
    forall r | 0 <= r < |ready|
      ensures SlotOk(ready[r], free[s := free[s].Arrive(|emptied|)][r], UsesOf(filled, r, |ready|),
                     UsesOf(emptied[c := emptied[c] + 1], r, |ready|))
    {
      UsesStep(emptied, c, r, |ready|);
      if r == s {
        EmptyKeepsSlot(ready[s], free[s], UsesOf(filled, s, |ready|), UsesOf(emptied, s, |ready|), c);
      }
    }
  }

  /** The block that makes use number `use` of slot `s`. */
  function BlockAt(use: nat, s: nat, slots: nat): nat {
    use * slots + s
  }

  /** Where a thread stands: before its wait, between its wait and its arrival, or in the
      second wait that the build without overlap adds. */
  datatype Stage = Waiting | Inside | Draining

  /** What a slot holds once every math thread has made its part of a block. */
  function Whole<V>(made: nat -> nat -> V, threads: nat, i: nat): (contents: seq<Option<V>>)
    ensures |contents| == threads
  {
    seq(threads, t requires 0 <= t < threads => Some(made(t)(i)))
  }

  /** The first `n` blocks. */
  function Blocks<V>(made: nat -> nat -> V, threads: nat, n: nat): (log: seq<seq<Option<V>>>)
    ensures |log| == n && forall i :: 0 <= i < n ==> log[i] == Whole(made, threads, i)
  {
    seq(n, i requires 0 <= i < n => Whole(made, threads, i))
  }

  /** Where a math thread stands after filling `n` blocks: one that is filling was let in by its
      slot's barrier; without overlap only a thread in its second wait is ahead of what has been
      emptied, and only in the slot it has just filled. */
  ghost predicate MathOk(n: nat, stage: Stage, free: seq<Barrier>, blocks: nat, overlap: bool)
    requires |free| > 0
  {
    && n <= blocks
    && (stage.Inside? ==> n < blocks && VisitsTo(n, n % |free|, |free|) <= free[n % |free|].completed)
    && (stage.Draining? ==> !overlap && n > 0)
    && (!overlap ==>
          forall s :: 0 <= s < |free| && VisitsTo(n, s, |free|) > free[s].completed ==>
            stage.Draining? && s == (n - 1) % |free|)
  }

  /** And a selection thread after emptying `n`. */
  ghost predicate SelectOk(n: nat, stage: Stage, ready: seq<Barrier>, blocks: nat)
    requires |ready| > 0
  {
    && n <= blocks && !stage.Draining?
    && (stage.Inside? ==> n < blocks && VisitsTo(n, n % |ready|, |ready|) < ready[n % |ready|].completed)
  }

  /** A math thread's part of slot `s` is what it last made there, unless it is at work on it. */
  ghost predicate PartOk<V>(part: Option<V>, makes: nat -> V, n: nat, stage: Stage, s: nat, slots: nat)
    requires s < slots
  {
    VisitsTo(n, s, slots) > 0 && !(stage.Inside? && n % slots == s) ==>
      part == Some(makes(BlockAt(VisitsTo(n, s, slots) - 1, s, slots)))
  }

  /** Barriers only move on. */
  ghost predicate MovedOn(before: seq<Barrier>, after: seq<Barrier>) {
    |before| == |after| && forall s :: 0 <= s < |before| ==> before[s].completed <= after[s].completed
  }

  ghost predicate AllMathOk(filled: seq<nat>, filling: seq<Stage>, free: seq<Barrier>, blocks: nat, overlap: bool) {
    |filled| == |filling| && |free| > 0 &&
    forall t {:trigger MathOk(filled[t], filling[t], free, blocks, overlap)} ::
      0 <= t < |filled| ==> MathOk(filled[t], filling[t], free, blocks, overlap)
  }

  ghost predicate AllSelectOk(emptied: seq<nat>, emptying: seq<Stage>, ready: seq<Barrier>, blocks: nat) {
    |emptied| == |emptying| && |ready| > 0 &&
    forall c {:trigger SelectOk(emptied[c], emptying[c], ready, blocks)} ::
      0 <= c < |emptied| ==> SelectOk(emptied[c], emptying[c], ready, blocks)
  }

  ghost predicate AllPartsOk<V>(
      parts: seq<seq<Option<V>>>, made: nat -> nat -> V, filled: seq<nat>, filling: seq<Stage>)
  {
    |filled| == |filling| &&
    (forall s :: 0 <= s < |parts| ==> |parts[s]| == |filled|) &&
    forall s, t {:trigger PartOk(parts[s][t], made(t), filled[t], filling[t], s, |parts|)} ::
      0 <= s < |parts| && 0 <= t < |filled| ==> PartOk(parts[s][t], made(t), filled[t], filling[t], s, |parts|)
  }

  lemma MathOkStays(filled: seq<nat>, filling: seq<Stage>, free: seq<Barrier>, free': seq<Barrier>, blocks: nat,
                    overlap: bool)
    requires AllMathOk(filled, filling, free, blocks, overlap) && MovedOn(free, free')
    ensures AllMathOk(filled, filling, free', blocks, overlap)
  {
    forall t | 0 <= t < |filled| ensures MathOk(filled[t], filling[t], free', blocks, overlap) {
      assert MathOk(filled[t], filling[t], free, blocks, overlap);
    }
  }

  /** The thread at `t` moves to a stage that its barriers allow; the others stay. */
  lemma MathOkMoved(
      filled: seq<nat>, filling: seq<Stage>, t: nat, n: nat, stage: Stage, free: seq<Barrier>, blocks: nat,
      overlap: bool)
    requires AllMathOk(filled, filling, free, blocks, overlap) && t < |filled|
    requires MathOk(n, stage, free, blocks, overlap)
    ensures AllMathOk(filled[t := n], filling[t := stage], free, blocks, overlap)
  {
    var filled', filling' := filled[t := n], filling[t := stage];
    forall q | 0 <= q < |filled| ensures MathOk(filled'[q], filling'[q], free, blocks, overlap) {
      assert MathOk(filled[q], filling[q], free, blocks, overlap);
    }
  }

  lemma SelectOkMoved(
      emptied: seq<nat>, emptying: seq<Stage>, c: nat, n: nat, stage: Stage, ready: seq<Barrier>, blocks: nat)
    requires AllSelectOk(emptied, emptying, ready, blocks) && c < |emptied| && SelectOk(n, stage, ready, blocks)
    ensures AllSelectOk(emptied[c := n], emptying[c := stage], ready, blocks)
  {
    var emptied', emptying' := emptied[c := n], emptying[c := stage];
    forall q | 0 <= q < |emptied| ensures SelectOk(emptied'[q], emptying'[q], ready, blocks) {
      assert SelectOk(emptied[q], emptying[q], ready, blocks);
    }
  }

  lemma SelectOkStays(emptied: seq<nat>, emptying: seq<Stage>, ready: seq<Barrier>, ready': seq<Barrier>, blocks: nat)
    requires AllSelectOk(emptied, emptying, ready, blocks) && MovedOn(ready, ready')
    ensures AllSelectOk(emptied, emptying, ready', blocks)
  {
    forall c | 0 <= c < |emptied| ensures SelectOk(emptied[c], emptying[c], ready', blocks) {
      assert SelectOk(emptied[c], emptying[c], ready, blocks);
    }
  }

  lemma MathOkFilled(n: nat, free: seq<Barrier>, blocks: nat, overlap: bool)
    requires |free| > 0 && MathOk(n, Inside, free, blocks, overlap)
    ensures MathOk(n + 1, if overlap then Waiting else Draining, free, blocks, overlap)
  {
    forall s | 0 <= s < |free|
      ensures VisitsTo(n + 1, s, |free|) == VisitsTo(n, s, |free|) + if s == n % |free| then 1 else 0
    {
      OneMoreVisit(n, s, |free|);
    }
  }

  lemma PartOkFilled<V>(part: Option<V>, makes: nat -> V, n: nat, stage: Stage, s: nat, slots: nat)
    requires s < slots && PartOk(part, makes, n, Inside, s, slots) && !stage.Inside?
    ensures PartOk(if s == n % slots then Some(makes(n)) else part, makes, n + 1, stage, s, slots)
  {
    OneMoreVisit(n, s, slots);
    assert s == n % slots ==> BlockAt(VisitsTo(n, s, slots), s, slots) == n;
  }

  lemma PartsOkFilled<V>(
      parts: seq<seq<Option<V>>>, made: nat -> nat -> V, filled: seq<nat>, filling: seq<Stage>, t: nat, s: nat,
      stage: Stage)
    requires AllPartsOk(parts, made, filled, filling) && t < |filled| && filling[t].Inside? && !stage.Inside?
    requires |parts| > 0 && s == filled[t] % |parts|
    ensures AllPartsOk(parts[s := parts[s][t := Some(made(t)(filled[t]))]], made,
                       filled[t := filled[t] + 1], filling[t := stage])
  {
    var parts', filled', filling' :=
      parts[s := parts[s][t := Some(made(t)(filled[t]))]], filled[t := filled[t] + 1], filling[t := stage];
    forall r, q | 0 <= r < |parts| && 0 <= q < |filled|
      ensures PartOk(parts'[r][q], made(q), filled'[q], filling'[q], r, |parts|)
    {
      assert PartOk(parts[r][q], made(q), filled[q], filling[q], r, |parts|);
      if q == t {
        PartOkFilled(parts[r][t], made(t), filled[t], stage, r, |parts|);
      }
    }
  }

  lemma PartsOkBegun<V>(
      parts: seq<seq<Option<V>>>, made: nat -> nat -> V, filled: seq<nat>, filling: seq<Stage>, t: nat, s: nat)
    requires AllPartsOk(parts, made, filled, filling) && t < |filled| && |parts| > 0 && s == filled[t] % |parts|
    requires filling[t].Waiting?
    ensures AllPartsOk(parts[s := parts[s][t := None]], made, filled, filling[t := Inside])
  {
    var parts', filling' := parts[s := parts[s][t := None]], filling[t := Inside];
    forall r, q | 0 <= r < |parts| && 0 <= q < |filled|
      ensures PartOk(parts'[r][q], made(q), filled[q], filling'[q], r, |parts|)
    {
      assert PartOk(parts[r][q], made(q), filled[q], filling[q], r, |parts|);
    }
  }

  lemma PartsOkDrained<V>(
      parts: seq<seq<Option<V>>>, made: nat -> nat -> V, filled: seq<nat>, filling: seq<Stage>, t: nat)
    requires AllPartsOk(parts, made, filled, filling) && t < |filled| && filling[t].Draining?
    ensures AllPartsOk(parts, made, filled, filling[t := Waiting])
  {
    forall r, q | 0 <= r < |parts| && 0 <= q < |filled|
      ensures PartOk(parts[r][q], made(q), filled[q], filling[t := Waiting][q], r, |parts|)
    {
      assert PartOk(parts[r][q], made(q), filled[q], filling[q], r, |parts|);
    }
  }

  /** A math thread whose use of the slot is complete, while that use is not yet emptied. */
  lemma PartIsRead<V>(
      part: Option<V>, makes: nat -> V, n: nat, stage: Stage, s: nat, i: nat, free: seq<Barrier>, blocks: nat,
      overlap: bool)
    requires |free| > 0 && s == i % |free|
    requires PartOk(part, makes, n, stage, s, |free|) && MathOk(n, stage, free, blocks, overlap)
    requires VisitsTo(n, s, |free|) == VisitsTo(i, s, |free|) + 1 && free[s].completed == VisitsTo(i, s, |free|)
    ensures part == Some(makes(i)) && !(stage.Inside? && n % |free| == s) && (!overlap ==> stage.Draining?)
  {
    assert BlockAt(VisitsTo(i, s, |free|), s, |free|) == i;
  }

  /** A selection thread has read the first `n` blocks in order, each of them whole. */
  ghost predicate LogOk<V>(log: seq<seq<Option<V>>>, made: nat -> nat -> V, threads: nat, n: nat) {
    log == Blocks(made, threads, n)
  }

  ghost predicate AllLogsOk<V>(
      logs: seq<seq<seq<Option<V>>>>, made: nat -> nat -> V, threads: nat, emptied: seq<nat>)
  {
    |logs| == |emptied| &&
    forall c {:trigger LogOk(logs[c], made, threads, emptied[c])} ::
      0 <= c < |logs| ==> LogOk(logs[c], made, threads, emptied[c])
  }

  lemma LogsOkRead<V>(
      logs: seq<seq<seq<Option<V>>>>, contents: seq<Option<V>>, made: nat -> nat -> V, threads: nat, emptied: seq<nat>,
      c: nat)
    requires AllLogsOk(logs, made, threads, emptied) && c < |logs| && contents == Whole(made, threads, emptied[c])
    ensures AllLogsOk(logs[c := logs[c] + [contents]], made, threads, emptied[c := emptied[c] + 1])
  {
    var logs', emptied' := logs[c := logs[c] + [contents]], emptied[c := emptied[c] + 1];
    forall q | 0 <= q < |logs| ensures LogOk(logs'[q], made, threads, emptied'[q]) {
      assert LogOk(logs[q], made, threads, emptied[q]);
      if q == c {
        assert logs[c] + [contents] == Blocks(made, threads, emptied[c] + 1);
      }
    }
  }

  lemma {:induction false} Least(s: seq<nat>) returns (i: nat)
    requires s != []
    ensures i < |s| && forall j :: 0 <= j < |s| ==> s[i] <= s[j]
  {
    i := 0;
    if |s| > 1 {
      var j := Least(s[1..]);
      i := if s[0] <= s[j + 1] then 0 else j + 1;
      assert forall q :: 1 <= q < |s| ==> s[1..][q - 1] == s[q];
    }
  }

  /** An upper bound of a thread's remaining steps. */
  function Rank(n: nat, stage: Stage, blocks: nat): nat {
    var whole := if n < blocks then 3 * (blocks - n) else 0;
    match stage
    case Waiting => whole
    case Inside => if whole > 0 then whole - 1 else 0
    case Draining => whole + 1
  }

  function Ranks(done: seq<nat>, stages: seq<Stage>, blocks: nat): (ranks: seq<nat>)
    requires |done| == |stages|
    ensures |ranks| == |done|
  {
    seq(|done|, a requires 0 <= a < |done| => Rank(done[a], stages[a], blocks))
  }

  lemma RankStep(done: seq<nat>, stages: seq<Stage>, blocks: nat, a: nat, n: nat, stage: Stage)
    requires |done| == |stages| && a < |done| && Rank(n, stage, blocks) < Rank(done[a], stages[a], blocks)
    ensures SumFirst(Ranks(done[a := n], stages[a := stage], blocks), |done|) <
      SumFirst(Ranks(done, stages, blocks), |done|)
  {
    var before, after := Ranks(done, stages, blocks), Ranks(done[a := n], stages[a := stage], blocks);
    SumUpdate(after, |done|, a, before[a] - after[a]);
    assert after[a := after[a] + (before[a] - after[a])] == before by {
      assert forall q :: 0 <= q < |done| && q != a ==> after[q] == before[q];
    }
  }

  /** The slots of one persistent CTA and the threads that share them. Math thread `t` makes
      the part `made(t)(i)` of its CTA's block `i`; while it is at work its part of the slot
      is not to be read. */
  class Cta<V> {
    const blocks: nat
    const overlap: bool
    const made: nat -> nat -> V
    var ready: seq<Barrier>
    var free: seq<Barrier>
    var parts: seq<seq<Option<V>>>
    var filled: seq<nat>
    var filling: seq<Stage>
    var emptied: seq<nat>
    var emptying: seq<Stage>
    /** What each selection thread has read, block by block. */
    var logs: seq<seq<seq<Option<V>>>>

    /** A row of slots, and at least one thread of each kind. */
    predicate Shape()
      reads this
    {
      && |ready| == |free| == |parts| > 0
      && |filled| == |filling| > 0 && |emptied| == |emptying| == |logs| > 0
      && forall s :: 0 <= s < |parts| ==> |parts[s]| == |filled|
    }

    ghost predicate Valid()
      reads this
    {
      && Shape() && SlotsOk(ready, free, filled, emptied)
      && AllMathOk(filled, filling, free, blocks, overlap) && AllSelectOk(emptied, emptying, ready, blocks)
      && AllPartsOk(parts, made, filled, filling) && AllLogsOk(logs, made, |filled|, emptied)
    }

    constructor (slots: nat, mathThreads: nat, selectThreads: nat, blocks: nat, overlap: bool, made: nat -> nat -> V)
      requires slots > 0 && mathThreads > 0 && selectThreads > 0
      ensures Valid() && this.blocks == blocks && this.overlap == overlap && this.made == made
      ensures |ready| == slots && |filled| == mathThreads && |emptied| == selectThreads
    {
      this.blocks, this.overlap, this.made := blocks, overlap, made;
      ready, free := seq(slots, s => Barrier(0, 0)), seq(slots, s => Barrier(0, 0));
      parts := seq(slots, s => seq(mathThreads, t => None));
      filled, filling := seq(mathThreads, t => 0), seq(mathThreads, t => Waiting);
      emptied, emptying := seq(selectThreads, c => 0), seq(selectThreads, c => Waiting);
      logs := seq(selectThreads, c => []);
      new;
      forall s | 0 <= s < slots
        ensures VisitsTo(0, s, slots) == 0 &&
          SlotOk(ready[s], free[s], UsesOf(filled, s, slots), UsesOf(emptied, s, slots))
      {
        assert Ahead(UsesOf(filled, s, slots), 0) == {} && Ahead(UsesOf(emptied, s, slots), 0) == {};
      }
    }

    // ---------- the steps ----------

    /** Whether math thread `t` can take its next step. */
    predicate MathMoves(t: nat)
      requires Shape() && t < |filled|
      reads this
    {
      match filling[t]
      case Waiting => filled[t] < blocks && free[filled[t] % |free|].Passed(1 - filled[t] / |free| % 2)
      case Inside => true
      case Draining => filled[t] > 0 && free[(filled[t] - 1) % |free|].Passed((filled[t] - 1) / |free| % 2)
    }

    predicate SelectMoves(c: nat)
      requires Shape() && c < |emptied|
      reads this
    {
      emptying[c].Inside? || (emptied[c] < blocks && ready[emptied[c] % |ready|].Passed(emptied[c] / |ready| % 2))
    }

    /** A math thread passes its wait and starts to overwrite its part. */
    method BeginFill(t: nat)
      requires Valid() && t < |filled| && filling[t].Waiting? && MathMoves(t)
      modifies this`filling, this`parts
      ensures Valid() && filling == old(filling)[t := Inside]
      ensures var s := filled[t] % |ready|; parts == old(parts)[s := old(parts)[s][t := None]]
    {
      var s := filled[t] % |free|;
      FreeMeansEmptied(ready[s], free[s], UsesOf(filled, s, |ready|), UsesOf(emptied, s, |ready|), t);
      PartsOkBegun(parts, made, filled, filling, t, s);
      assert MathOk(filled[t], filling[t], free, blocks, overlap);
      MathOkMoved(filled, filling, t, filled[t], Inside, free, blocks, overlap);
      filling, parts := filling[t := Inside], parts[s := parts[s][t := None]];
    }

    /** It publishes its part; without overlap it then waits until the block is read. */
    method FinishFill(t: nat)
      requires Valid() && t < |filled| && filling[t].Inside?
      modifies this`filling, this`parts, this`filled, this`ready
      ensures Valid() && filled == old(filled)[t := old(filled[t]) + 1]
      ensures filling == old(filling)[t := if overlap then Waiting else Draining]
      ensures
        var i, s := old(filled[t]), old(filled[t]) % |free|;
        ready == old(ready)[s := old(ready)[s].Arrive(|filled|)] &&
        parts == old(parts)[s := old(parts)[s][t := Some(made(t)(i))]]
    {
      var i, s, next := filled[t], filled[t] % |free|, if overlap then Waiting else Draining;
      assert MathOk(filled[t], filling[t], free, blocks, overlap);
      FillKeepsSlots(ready, free, filled, emptied, t, s);
      MathOkFilled(i, free, blocks, overlap);
      MathOkMoved(filled, filling, t, i + 1, next, free, blocks, overlap);
      PartsOkFilled(parts, made, filled, filling, t, s, next);
      SelectOkStays(emptied, emptying, ready, ready[s := ready[s].Arrive(|filled|)], blocks);
      ready, parts := ready[s := ready[s].Arrive(|filled|)], parts[s := parts[s][t := Some(made(t)(i))]];
      filled, filling := filled[t := i + 1], filling[t := next];
    }

    /** Its second wait is over once every selection thread has read what it filled. */
    method FinishDrain(t: nat)
      requires Valid() && t < |filled| && filling[t].Draining? && MathMoves(t)
      modifies this`filling
      ensures Valid() && filling == old(filling)[t := Waiting]
    {
      var s := (filled[t] - 1) % |free|;
      DrainMeansEmptied(ready[s], free[s], filled, UsesOf(emptied, s, |ready|), t, s, |ready|);
      assert MathOk(filled[t], filling[t], free, blocks, overlap);
      MathOkMoved(filled, filling, t, filled[t], Waiting, free, blocks, overlap);
      PartsOkDrained(parts, made, filled, filling, t);
      filling := filling[t := Waiting];
    }

    /** A selection thread passes its wait. */
    method BeginRead(c: nat)
      requires Valid() && c < |emptied| && emptying[c].Waiting? && SelectMoves(c)
      modifies this`emptying
      ensures Valid() && emptying == old(emptying)[c := Inside]
    {
      var s := emptied[c] % |ready|;
      ReadyMeansFilled(ready[s], free[s], UsesOf(filled, s, |ready|), UsesOf(emptied, s, |ready|), c);
      assert SelectOk(emptied[c], emptying[c], ready, blocks);
      SelectOkMoved(emptied, emptying, c, emptied[c], Inside, ready, blocks);
      emptying := emptying[c := Inside];
    }

    /** While it is at its block, the slot holds the whole of it, no math thread writes there,
        and without overlap none writes anywhere. */
    lemma ReaderIsUndisturbed(c: nat)
      requires Valid() && c < |emptied| && emptying[c].Inside?
      ensures parts[emptied[c] % |ready|] == Whole(made, |filled|, emptied[c])
      ensures forall t :: 0 <= t < |filled| && filling[t].Inside? ==> filled[t] % |ready| != emptied[c] % |ready|
      ensures !overlap ==> forall t :: 0 <= t < |filled| ==> filling[t].Draining?
    {
      var i, s := emptied[c], emptied[c] % |ready|;
      assert SelectOk(emptied[c], emptying[c], ready, blocks);
      ReadyMeansFilled(ready[s], free[s], UsesOf(filled, s, |ready|), UsesOf(emptied, s, |ready|), c);
      forall t | 0 <= t < |filled|
        ensures !(filling[t].Inside? && filled[t] % |ready| == s) && parts[s][t] == Some(made(t)(i))
        ensures !overlap ==> filling[t].Draining?
      {
        assert UsesOf(filled, s, |ready|)[t] == VisitsTo(i, s, |ready|) + 1;
        assert MathOk(filled[t], filling[t], free, blocks, overlap);
        assert PartOk(parts[s][t], made(t), filled[t], filling[t], s, |parts|);
        PartIsRead(parts[s][t], made(t), filled[t], filling[t], s, i, free, blocks, overlap);
      }
    }

    lemma ReadKeepsAll(c: nat, s: nat)
      requires Valid() && c < |emptied| && emptying[c].Inside? && s == emptied[c] % |ready|
      ensures SlotsOk(ready, free[s := free[s].Arrive(|emptied|)], filled, emptied[c := emptied[c] + 1])
      ensures AllMathOk(filled, filling, free[s := free[s].Arrive(|emptied|)], blocks, overlap)
      ensures AllSelectOk(emptied[c := emptied[c] + 1], emptying[c := Waiting], ready, blocks)
      ensures AllLogsOk(logs[c := logs[c] + [parts[s]]], made, |filled|, emptied[c := emptied[c] + 1])
    {
      assert parts[s] == Whole(made, |filled|, emptied[c]) by { ReaderIsUndisturbed(c); }
      LogsOkRead(logs, parts[s], made, |filled|, emptied, c);
      assert SelectOk(emptied[c], emptying[c], ready, blocks);
      SelectOkMoved(emptied, emptying, c, emptied[c] + 1, Waiting, ready, blocks);
      EmptyKeepsSlots(ready, free, filled, emptied, c, s);
      MathOkStays(filled, filling, free, free[s := free[s].Arrive(|emptied|)], blocks, overlap);
    }

    /** It notes what it has read and gives the slot back. */
    method FinishRead(c: nat)
      requires Valid() && c < |emptied| && emptying[c].Inside?
      modifies this`emptying, this`emptied, this`free, this`logs
      ensures Valid() && emptied == old(emptied)[c := old(emptied[c]) + 1]
      ensures emptying == old(emptying)[c := Waiting]
      ensures
        var s := old(emptied[c]) % |ready|;
        free == old(free)[s := old(free)[s].Arrive(|emptied|)] && logs == old(logs)[c := old(logs)[c] + [parts[s]]]
    {
      var s := emptied[c] % |ready|;
      ReadKeepsAll(c, s);
      free, logs := free[s := free[s].Arrive(|emptied|)], logs[c := logs[c] + [parts[s]]];
      emptied, emptying := emptied[c := emptied[c] + 1], emptying[c := Waiting];
    }

    // ---------- progress ----------

    /** Every thread has left its loop. */
    predicate Done()
      requires Shape()
      reads this
    {
      && (forall t :: 0 <= t < |filled| ==> filled[t] == blocks && filling[t].Waiting?)
      && forall c :: 0 <= c < |emptied| ==> emptied[c] == blocks && emptying[c].Waiting?
    }

    /** A math thread that is not ahead of any selection thread is never held up. */
    lemma UnaheadMoves(t: nat, m: nat)
      requires Valid() && t < |filled| && filled[t] <= m && forall c :: 0 <= c < |emptied| ==> emptied[c] >= m
      requires filled[t] < blocks || !filling[t].Waiting?
      ensures MathMoves(t)
    {
      assert MathOk(filled[t], filling[t], free, blocks, overlap);
      if !filling[t].Inside? {
        var n, s := filled[t], (if filling[t].Waiting? then filled[t] else filled[t] - 1) % |free|;
        var fills, empties := UsesOf(filled, s, |ready|), UsesOf(emptied, s, |ready|);
        assert SlotOk(ready[s], free[s], fills, empties);
        forall c | 0 <= c < |emptied| ensures fills[t] <= empties[c] {
          MoreVisits(n, emptied[c], s, |ready|);
        }
        UnaheadIsEmptied(ready[s], free[s], fills, empties, t);
        if filling[t].Waiting? {
          FreeMeansEmptied(ready[s], free[s], fills, empties, t);
        } else {
          DrainMeansEmptied(ready[s], free[s], filled, empties, t, s, |ready|);
        }
      }
    }

    /** A selection thread is held up only by a math thread that has not got past its block. */
    lemma HeldUpByMath(c: nat) returns (t: nat)
      requires Valid() && c < |emptied| && emptied[c] < blocks && !SelectMoves(c)
      ensures t < |filled| && filled[t] <= emptied[c]
    {
      var m, s := emptied[c], emptied[c] % |ready|;
      ReadyMeansFilled(ready[s], free[s], UsesOf(filled, s, |ready|), UsesOf(emptied, s, |ready|), c);
      t := SomeoneMissing(ready[s], UsesOf(filled, s, |ready|));
      OneMoreVisit(m, s, |ready|);
      if filled[t] > m {
        MoreVisits(m + 1, filled[t], s, |ready|);
      }
    }

    /** Thread `a` can move; the math threads come first. */
    predicate CanMove(a: nat)
      requires Shape() && a < |filled| + |emptied|
      reads this
    {
      if a < |filled| then MathMoves(a) else SelectMoves(a - |filled|)
    }

    /** No deadlock: until every thread has left its loop, some thread can move. */
    lemma SomeoneCanMove() returns (a: nat)
      requires Valid() && !Done()
      ensures a < |filled| + |emptied| && CanMove(a)
    {
      var c := Least(emptied);
      if SelectMoves(c) { return |filled| + c; }
      assert SelectOk(emptied[c], emptying[c], ready, blocks);
      if emptied[c] < blocks {
        a := HeldUpByMath(c);
      } else {
        forall q | 0 <= q < |emptied| ensures emptied[q] == blocks && emptying[q].Waiting? {
          assert SelectOk(emptied[q], emptying[q], ready, blocks);
        }
        a :| a < |filled| && !(filled[a] == blocks && filling[a].Waiting?);
        assert MathOk(filled[a], filling[a], free, blocks, overlap);
      }
      UnaheadMoves(a, emptied[c]);
    }

    /** An upper bound of the steps left. */
    ghost function Left(): nat
      requires Shape()
      reads this
    {
      SumFirst(Ranks(filled, filling, blocks), |filled|) + SumFirst(Ranks(emptied, emptying, blocks), |emptied|)
    }

    method MathStep(t: nat) returns (ghost n: nat, ghost stage: Stage)
      requires Valid() && t < |filled| && MathMoves(t)
      modifies this`filling, this`parts, this`filled, this`ready
      ensures Valid() && filled == old(filled)[t := n] && filling == old(filling)[t := stage]
      ensures Rank(n, stage, blocks) < old(Rank(filled[t], filling[t], blocks))
    {
      assert MathOk(filled[t], filling[t], free, blocks, overlap);
      match filling[t] {
        case Waiting =>
          n, stage := filled[t], Inside;
          BeginFill(t);
        case Inside =>
          n, stage := filled[t] + 1, if overlap then Waiting else Draining;
          FinishFill(t);
        case Draining =>
          n, stage := filled[t], Waiting;
          FinishDrain(t);
      }
    }

    method SelectStep(c: nat) returns (ghost n: nat, ghost stage: Stage)
      requires Valid() && c < |emptied| && SelectMoves(c)
      modifies this`emptying, this`emptied, this`free, this`logs
      ensures Valid() && emptied == old(emptied)[c := n] && emptying == old(emptying)[c := stage]
      ensures Rank(n, stage, blocks) < old(Rank(emptied[c], emptying[c], blocks))
    {
      assert SelectOk(emptied[c], emptying[c], ready, blocks);
      if emptying[c].Inside? {
        n, stage := emptied[c] + 1, Waiting;
        FinishRead(c);
      } else {
        n, stage := emptied[c], Inside;
        BeginRead(c);
      }
    }

    method Step(a: nat)
      requires Valid() && a < |filled| + |emptied| && CanMove(a)
      modifies this
      ensures Valid() && |filled| == old(|filled|) && |emptied| == old(|emptied|) && Left() < old(Left())
    {
      if a < |filled| {
        ghost var before, stages := filled, filling;
        ghost var n, stage := MathStep(a);
        RankStep(before, stages, blocks, a, n, stage);
      } else {
        ghost var before, stages := emptied, emptying;
        ghost var n, stage := SelectStep(a - |filled|);
        RankStep(before, stages, blocks, a - |filled|, n, stage);
      }
    }
  }

  /** Any interleaving of any number of math and selection threads over any number of slots,
      with or without overlap: it ends with every math thread out of its loop, and every
      selection thread has read every block, in order, as the math threads made it. */
  method RunCta<V>(
      slots: nat, mathThreads: nat, selectThreads: nat, blocks: nat, overlap: bool, made: nat -> nat -> V)
    returns (logs: seq<seq<seq<Option<V>>>>, filled: seq<nat>, filling: seq<Stage>)
    requires slots > 0 && mathThreads > 0 && selectThreads > 0
    ensures |filled| == |filling| == mathThreads
    ensures forall t :: 0 <= t < mathThreads ==> filled[t] == blocks && filling[t] == Waiting
    ensures |logs| == selectThreads
    ensures forall c :: 0 <= c < selectThreads ==> |logs[c]| == blocks
    ensures forall c, i :: 0 <= c < selectThreads && 0 <= i < blocks ==> |logs[c][i]| == mathThreads
    ensures forall c, i, t :: 0 <= c < selectThreads && 0 <= i < blocks && 0 <= t < mathThreads ==>
      logs[c][i][t] == Some(made(t)(i))
  {
    var cta := new Cta(slots, mathThreads, selectThreads, blocks, overlap, made);
    while !cta.Done()
      invariant cta.Valid() && |cta.filled| == mathThreads && |cta.emptied| == selectThreads
      decreases cta.Left()
    {
      ghost var mover := cta.SomeoneCanMove();
      var a: nat :| a < |cta.filled| + |cta.emptied| && cta.CanMove(a);
      cta.Step(a);
    }
    logs, filled, filling := cta.logs, cta.filled, cta.filling;
    forall c | 0 <= c < selectThreads ensures logs[c] == Blocks(made, mathThreads, blocks) {
      assert LogOk(cta.logs[c], cta.made, |cta.filled|, cta.emptied[c]);
    }
  }
}
