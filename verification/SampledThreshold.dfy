/** The sampled score floor of one row: a radix selection over the finite scores of the
    in-range samples, or no floor at all. */
module SampledThreshold {
  import opened Arithmetic
  import opened Exactness
  import opened WarpPrimitives
  import opened RadixSelect
  import opened FloatKeys

  ghost predicate ValidSamples(scores: seq<nat>, ids: seq<nat>) {
    |scores| == |ids| && forall i :: 0 <= i < |scores| ==> scores[i] < KEY_SPACE
  }

  /** A sample counts when its token is in the row's range and its score is finite. */
  predicate Counts(scores: seq<nat>, ids: seq<nat>, start: nat, end: nat, i: nat)
    requires |scores| == |ids| && i < |scores| && scores[i] < KEY_SPACE
  {
    start <= ids[i] < end && IsFinite(scores[i])
  }

  ghost function Counting(scores: seq<nat>, ids: seq<nat>, start: nat, end: nat): set<nat>
    requires ValidSamples(scores, ids)
  {
    set i | 0 <= i < |scores| && Counts(scores, ids, start, end, i)
  }

  /** The counting samples whose number is at least the threshold's. */
  ghost function AtLeast(scores: seq<nat>, ids: seq<nat>, start: nat, end: nat, threshold: nat): set<nat>
    requires ValidSamples(scores, ids) && threshold < KEY_SPACE && IsFinite(threshold)
  {
    set i | i in Counting(scores, ids, start, end) && !Below(Denotes(scores[i]), Denotes(threshold))
  }

  ghost function Greater(scores: seq<nat>, ids: seq<nat>, start: nat, end: nat, threshold: nat): set<nat>
    requires ValidSamples(scores, ids) && threshold < KEY_SPACE && IsFinite(threshold)
  {
    set i | i in Counting(scores, ids, start, end) && Below(Denotes(threshold), Denotes(scores[i]))
  }

  /** The threshold is the `rank`-th largest number among the counting samples. */
  ghost predicate IsRankThLargest(scores: seq<nat>, ids: seq<nat>, start: nat, end: nat, rank: nat, threshold: nat)
    requires ValidSamples(scores, ids)
  {
    && threshold < KEY_SPACE && IsFinite(threshold)
    && |Greater(scores, ids, start, end, threshold)| < rank <= |AtLeast(scores, ids, start, end, threshold)|
  }

  /** The whole contract of the sampling kernel on one row: no floor when the range is within
      the target or fewer than `rank` samples are in range and finite; otherwise the `rank`-th
      largest of those samples. */
  ghost predicate IsFloorOf(
      scores: seq<nat>, ids: seq<nat>, start: nat, end: nat, rank: nat, target: nat, threshold: nat)
    requires ValidSamples(scores, ids)
  {
    var counting := set i | 0 <= i < |scores| && start <= ids[i] < end && IsFinite(scores[i]);
    if end - start <= target || |counting| < rank then threshold == NEGATIVE_INFINITY
    else
      && threshold < KEY_SPACE && IsFinite(threshold)
      && |set i | i in counting && Below(Denotes(threshold), Denotes(scores[i]))| < rank
      && rank <= |set i | i in counting && !Below(Denotes(scores[i]), Denotes(threshold))|
  }

  lemma ThresholdIsFloor(
      scores: seq<nat>, ids: seq<nat>, start: nat, end: nat, rank: nat, target: nat, threshold: nat)
    requires ValidSamples(scores, ids) && threshold != NEGATIVE_INFINITY && end - start > target
    requires IsRankThLargest(scores, ids, start, end, rank, threshold)
    ensures IsFloorOf(scores, ids, start, end, rank, target, threshold)
  {
    var counting := set i | 0 <= i < |scores| && start <= ids[i] < end && IsFinite(scores[i]);
    assert counting == Counting(scores, ids, start, end);
    assert Greater(scores, ids, start, end, threshold) ==
      set i | i in counting && Below(Denotes(threshold), Denotes(scores[i]));
    assert AtLeast(scores, ids, start, end, threshold) ==
      set i | i in counting && !Below(Denotes(scores[i]), Denotes(threshold));
    SubsetCardinality(AtLeast(scores, ids, start, end, threshold), counting);
  }

  /** A selected key turns back into a score of the right rank. */
  lemma SelectedKeyIsScore(
      scores: seq<nat>, ids: seq<nat>, start: nat, end: nat, keys: seq<nat>, flags: seq<bool>, rank: nat, key: nat,
      ties: nat)
    requires ValidSamples(scores, ids) && |keys| == |flags| == |scores|
    requires forall i :: 0 <= i < |scores| ==> flags[i] == Counts(scores, ids, start, end, i)
    requires forall i :: 0 <= i < |scores| && flags[i] ==> keys[i] == OrderedFloat(scores[i])
    requires IsKthLargest(keys, Flagged(flags), rank, key, ties)
    ensures key < KEY_SPACE && IsRankThLargest(scores, ids, start, end, rank, OrderedToFloat(key))
  {
    var live, bits := Flagged(flags), OrderedToFloat(key);
    var holders, above := Between(keys, live, key, key + 1), Between(keys, live, key + 1, KEY_SPACE);
    var holder :| holder in holders;
    RoundTrip(scores[holder]);
    OrderEmbedding(scores[holder], bits);
    forall i | i in live
      ensures Below(Denotes(bits), Denotes(scores[i])) <==> key < keys[i]
      ensures Below(Denotes(scores[i]), Denotes(bits)) <==> keys[i] < key
    {
      OrderEmbedding(bits, scores[i]);
      OrderEmbedding(scores[i], bits);
    }
    assert live == Counting(scores, ids, start, end);
    assert Greater(scores, ids, start, end, bits) == above;
    assert AtLeast(scores, ids, start, end, bits) == holders + above;
    assert holders !! above;
  }

  /** Thread 0 adds up the first round's bins. */
  method SumBins(histogram: array<nat>) returns (total: nat)
    requires histogram.Length == BINS
    ensures total == TailSum(histogram[..], 0)
  {
    total := 0;
    for bin := 0 to BINS
      invariant total + TailSum(histogram[..], bin) == TailSum(histogram[..], 0)
    {
      total := total + histogram[bin];
    }
  }

  method CountRound(histogram: array<nat>, keys: seq<nat>, flags: seq<bool>, prefix: nat, unit: nat)
    requires histogram.Length == BINS && |flags| == |keys|
    requires unit > 0 && prefix % (BINS * unit) == 0
    modifies histogram
    ensures IsHistogram(histogram[..], keys, Flagged(flags), prefix, unit)
  {
    ClearHistogram(histogram);
    WarpHistogramPass(histogram, keys, flags, prefix, unit);
  }

  lemma TotalCount(h: seq<nat>, keys: seq<nat>, live: set<nat>)
    requires ValidKeys(keys, live) && IsHistogram(h, keys, live, 0, UNITS[0])
    ensures TailSum(h, 0) == |live|
  {
    HistogramTail(h, keys, live, 0, UNITS[0], 0);
    assert Between(keys, live, 0, KEY_SPACE) == live;
  }

  /** The four rounds. The first one also counts the samples and gives up when there are
      too few. */
  method SelectRank(histogram: array<nat>, keys: seq<nat>, flags: seq<bool>, sampleRank: nat)
    returns (found: bool, key: nat, ghost ties: nat)
    requires histogram.Length == BINS && |flags| == |keys|
    requires ValidKeys(keys, Flagged(flags)) && sampleRank > 0
    modifies histogram
    ensures found <==> |Flagged(flags)| >= sampleRank
    ensures found ==> IsKthLargest(keys, Flagged(flags), sampleRank, key, ties)
  {
    ghost var live := Flagged(flags);
    var rank := sampleRank;
    key, ties := 0, 0;
    for round := 0 to 4
      invariant round == 0 ==> key == 0 && rank == sampleRank
      invariant round > 0 ==> sampleRank <= |live|
      invariant round > 0 ==>
        RadixInvariant(keys, live, sampleRank, key, if round == 4 then 1 else BINS * UNITS[round], rank)
    {
      CountRound(histogram, keys, flags, key, UNITS[round]);
      if round == 0 {
        var counted := SumBins(histogram);
        TotalCount(histogram[..], keys, live);
        if counted < sampleRank { return false, 0, 0; }
        InitialInvariant(keys, live, sampleRank);
      }
      key, rank := DescendRound(histogram[..], keys, live, sampleRank, key, UNITS[round], rank, true);
    }
    found, ties := true, rank;
  }

  /** One row. There is no floor exactly when the range is within the target or fewer than
      `sampleRank` samples count; otherwise the floor is the `sampleRank`-th largest score. */
  method SampledThresholdRadix(scores: seq<nat>, ids: seq<nat>, start: nat, end: nat, sampleRank: nat, target: nat)
    returns (threshold: nat)
    requires ValidSamples(scores, ids) && 0 < sampleRank <= |scores|
    ensures threshold == NEGATIVE_INFINITY <==>
      end - start <= target || |Counting(scores, ids, start, end)| < sampleRank
    ensures threshold != NEGATIVE_INFINITY ==> IsRankThLargest(scores, ids, start, end, sampleRank, threshold)
    ensures IsFloorOf(scores, ids, start, end, sampleRank, target, threshold)
  {
    assert Counting(scores, ids, start, end) ==
      set i | 0 <= i < |scores| && start <= ids[i] < end && IsFinite(scores[i]);
    if end - start <= target { return NEGATIVE_INFINITY; }
    var flags := seq(|scores|, i requires 0 <= i < |scores| => Counts(scores, ids, start, end, i));
    var keys := seq(|scores|, i requires 0 <= i < |scores| => if flags[i] then OrderedFloat(scores[i]) else 0);
    assert Flagged(flags) == Counting(scores, ids, start, end);
    var histogram := new nat[BINS];
    var found, key, ties := SelectRank(histogram, keys, flags, sampleRank);
    if !found { return NEGATIVE_INFINITY; }
    SelectedKeyIsScore(scores, ids, start, end, keys, flags, sampleRank, key, ties);
    threshold := OrderedToFloat(key);
    ThresholdIsFloor(scores, ids, start, end, sampleRank, target, threshold);
  }

  /** Positions that list the tokens of a set once each are as many. */
  lemma {:induction false} ListedOnce(ids: seq<nat>, positions: set<int>, tokens: set<nat>)
    requires NoDuplicates(ids)
    requires forall i :: i in positions ==> 0 <= i < |ids| && ids[i] in tokens
    requires forall t :: t in tokens ==> exists i :: i in positions && ids[i] == t
    ensures |positions| == |tokens|
    decreases |positions|
  {
    if positions == {} {
      assert tokens == {};
    } else {
      var i := SomeMember(positions);
      forall t | t in tokens - {ids[i]} ensures exists j :: j in positions - {i} && ids[j] == t {
        var j :| j in positions && ids[j] == t;
        assert j != i;
      }
      ListedOnce(ids, positions - {i}, tokens - {ids[i]});
    }
  }

  /** The samples are drawn without replacement from these logits, and list every token of the
      range; the logits of the range are finite. */
  ghost predicate SamplesAll(logits: nat -> nat, scores: seq<nat>, ids: seq<nat>, start: nat, end: nat) {
    && ValidSamples(scores, ids) && NoDuplicates(ids)
    && (forall i :: 0 <= i < |ids| ==> scores[i] == logits(ids[i]))
    && (forall t :: start <= t < end ==> t in ids)
    && forall t :: start <= t < end ==> logits(t) < KEY_SPACE && IsFinite(logits(t))
  }

  /** The samples in range with a property are as many as the tokens with it. */
  lemma CountsAgree(
      logits: nat -> nat, scores: seq<nat>, ids: seq<nat>, start: nat, end: nat, p: nat -> bool,
      positions: set<int>, tokens: set<nat>)
    requires SamplesAll(logits, scores, ids, start, end)
    requires forall i :: i in positions <==> 0 <= i < |scores| && start <= ids[i] < end && p(scores[i])
    requires forall t :: t in tokens <==> start <= t < end && p(logits(t))
    ensures |positions| == |tokens|
  {
    forall t | t in tokens ensures exists i :: i in positions && ids[i] == t {
      assert t in ids;
      var i :| 0 <= i < |ids| && ids[i] == t;
      assert i in positions;
    }
    ListedOnce(ids, positions, tokens);
  }

  lemma RanksAgree(
      logits: nat -> nat, scores: seq<nat>, ids: seq<nat>, start: nat, end: nat, threshold: nat, counting: set<int>)
    requires SamplesAll(logits, scores, ids, start, end) && threshold < KEY_SPACE && IsFinite(threshold)
    requires counting == set i | 0 <= i < |scores| && start <= ids[i] < end && IsFinite(scores[i])
    ensures |set i | i in counting && Below(Denotes(threshold), Denotes(scores[i]))| ==
      |set t: nat | start <= t < end && Below(Denotes(threshold), Denotes(logits(t)))|
    ensures |set i | i in counting && !Below(Denotes(scores[i]), Denotes(threshold))| ==
      |set t: nat | start <= t < end && !Below(Denotes(logits(t)), Denotes(threshold))|
  {
    var above := (v: nat) => v < KEY_SPACE && IsFinite(v) && Below(Denotes(threshold), Denotes(v));
    var reaching := (v: nat) => v < KEY_SPACE && IsFinite(v) && !Below(Denotes(v), Denotes(threshold));
    CountsAgree(logits, scores, ids, start, end, above,
                set i | i in counting && Below(Denotes(threshold), Denotes(scores[i])),
                set t: nat | start <= t < end && Below(Denotes(threshold), Denotes(logits(t))));
    CountsAgree(logits, scores, ids, start, end, reaching,
                set i | i in counting && !Below(Denotes(scores[i]), Denotes(threshold)),
                set t: nat | start <= t < end && !Below(Denotes(logits(t)), Denotes(threshold)));
  }

  /** When the samples list every token of the range once, with finite logits, and there are
      more tokens than the target and at least `rank`, the floor is the `rank`-th largest logit
      of the whole range. */
  lemma FullSampleIsExact(
      logits: nat -> nat, scores: seq<nat>, ids: seq<nat>, start: nat, end: nat, rank: nat, target: nat,
      threshold: nat)
    requires SamplesAll(logits, scores, ids, start, end)
    requires IsFloorOf(scores, ids, start, end, rank, target, threshold)
    requires end - start > target && end - start >= rank > 0
    ensures threshold < KEY_SPACE && IsFinite(threshold)
    ensures |set t: nat | start <= t < end && Below(Denotes(threshold), Denotes(logits(t)))| < rank
    ensures rank <= |set t: nat | start <= t < end && !Below(Denotes(logits(t)), Denotes(threshold))|
  {
    var counting := set i | 0 <= i < |scores| && start <= ids[i] < end && IsFinite(scores[i]);
    CountsAgree(logits, scores, ids, start, end, v => true, counting, Interval(start, end));
    RanksAgree(logits, scores, ids, start, end, threshold, counting);
  }

  /** The tokens the fast pass keeps under a floor. */
  ghost function Admitted(logits: nat -> nat, start: nat, end: nat, floor: nat): set<nat> {
    set id | start <= id < end && LogitKeys(logits)(id) >= floor
  }

  lemma {:induction false} DistinctImage(ids: seq<nat>, positions: set<int>) returns (image: set<nat>)
    requires NoDuplicates(ids) && forall i :: i in positions ==> 0 <= i < |ids|
    ensures |image| == |positions|
    ensures forall v :: v in image ==> exists i :: i in positions && ids[i] == v
    decreases |positions|
  {
    if positions == {} {
      image := {};
    } else {
      var i := SomeMember(positions);
      var rest := DistinctImage(ids, positions - {i});
      forall j | j in positions - {i} ensures ids[j] != ids[i] {
      }
      image := rest + {ids[i]};
      forall v | v in image ensures exists j :: j in positions && ids[j] == v {
        if v == ids[i] {
          assert i in positions;
        } else {
          var j :| j in positions - {i} && ids[j] == v;
          assert j in positions;
        }
      }
    }
  }

  /** With samples drawn without replacement and scored as the tokens are, a floor admits
      at least `sampleRank` tokens of the range. */
  lemma FloorAdmitsRank(
      logits: nat -> nat, scores: seq<nat>, ids: seq<nat>, start: nat, end: nat, sampleRank: nat, threshold: nat)
    requires ValidSamples(scores, ids) && NoDuplicates(ids)
    requires forall i :: 0 <= i < |ids| ==> scores[i] == logits(ids[i])
    requires IsRankThLargest(scores, ids, start, end, sampleRank, threshold)
    ensures |Admitted(logits, start, end, OrderedFloat(threshold))| >= sampleRank
  {
    var kept := AtLeast(scores, ids, start, end, threshold);
    var image := DistinctImage(ids, kept);
    forall v | v in image ensures v in Admitted(logits, start, end, OrderedFloat(threshold)) {
      var i :| i in kept && ids[i] == v;
      OrderEmbedding(scores[i], threshold);
    }
    SubsetCardinality(image, Admitted(logits, start, end, OrderedFloat(threshold)));
  }

  /** Without a floor every token of a finite row is admitted. */
  lemma NoFloorAdmitsAll(logits: nat -> nat, start: nat, end: nat)
    requires forall id :: logits(id) < KEY_SPACE && IsFinite(logits(id))
    ensures Admitted(logits, start, end, OrderedFloat(NEGATIVE_INFINITY)) == Interval(start, end)
  {
    forall id | start <= id < end ensures LogitKeys(logits)(id) >= OrderedFloat(NEGATIVE_INFINITY) {
      OrderEmbedding(logits(id), NEGATIVE_INFINITY);
    }
  }

  /** Whatever the sampling kernel returns for a rank of at least k over distinct samples, a
      finite range of at least k tokens has k of them at or above it. */
  lemma SampledFloorAdmits(
      logits: nat -> nat, scores: seq<nat>, ids: seq<nat>, start: nat, end: nat, rank: nat, target: nat,
      threshold: nat, k: nat, admitted: set<nat>)
    requires ValidSamples(scores, ids) && NoDuplicates(ids)
    requires forall i :: 0 <= i < |ids| ==> scores[i] == logits(ids[i])
    requires forall id :: start <= id < end ==> logits(id) < KEY_SPACE && IsFinite(logits(id))
    requires IsFloorOf(scores, ids, start, end, rank, target, threshold) && rank >= k && end - start >= k
    requires forall id :: id in admitted <==> start <= id < end && OrderedFloat(logits(id)) >= OrderedFloat(threshold)
    ensures |admitted| >= k
  {
    var counting := set i | 0 <= i < |scores| && start <= ids[i] < end && IsFinite(scores[i]);
    if end - start <= target || |counting| < rank {
      forall id | id in Interval(start, end) ensures id in admitted {
        OrderEmbedding(logits(id), NEGATIVE_INFINITY);
      }
      SubsetCardinality(Interval(start, end), admitted);
    } else {
      var kept := set i | i in counting && !Below(Denotes(scores[i]), Denotes(threshold));
      var image := DistinctImage(ids, kept);
      forall v | v in image ensures v in admitted {
        var i :| i in kept && ids[i] == v;
        OrderEmbedding(scores[i], threshold);
      }
      SubsetCardinality(image, admitted);
    }
  }
}
