/** The score-threshold oracle and the comparator: how an unordered output is judged exact
    when the cutoff score is shared by several tokens. Scores are their order keys. */
module ScoreOracle {
  import opened Arithmetic
  import opened Exactness
  import opened RadixSelect
  import opened FloatKeys
  import opened Outcomes
  import opened TensorOps
  import opened OutputValidation

  /** A row's scores as a function of the token ID. */
  function RowKey(row: seq<nat>): nat -> nat {
    (id: nat) => if id < |row| then row[id] else 0
  }

  /** Reference scores: keys of numbers or infinities, minus infinity past the causal end. */
  ghost predicate CausalScores(row: seq<nat>, end: nat) {
    && end <= |row|
    && (forall id :: 0 <= id < |row| ==> IsNumberKey(row[id]))
    && forall id :: end <= id < |row| ==> row[id] == NEGATIVE_INFINITY_KEY
  }

  /** The IDs below `end` scoring at least `bound`. */
  ghost function Reaching(row: seq<nat>, end: nat, bound: nat): set<nat> {
    Between(row, Interval(0, end), bound, KEY_SPACE)
  }

  ghost function Above(row: seq<nat>, end: nat, cutoff: nat): set<nat> {
    Between(row, Interval(0, end), cutoff + 1, KEY_SPACE)
  }

  ghost function At(row: seq<nat>, end: nat, cutoff: nat): set<nat> {
    Between(row, Interval(0, end), cutoff, cutoff + 1)
  }

  // ---------- what the library's top values say about a row ----------

  lemma TopRank(row: seq<nat>, n: nat, values: seq<nat>, picked: seq<nat>, j: nat, bound: nat)
    requires AreTopValues(row, n, values, picked) && j < n && forall id :: 0 <= id < |row| ==> row[id] < KEY_SPACE
    ensures values[j] >= bound <==> |Reaching(row, |row|, bound)| > j
  {
    var reach := Reaching(row, |row|, bound);
    var upTo, before := picked[..j + 1], picked[..j];
    if values[j] >= bound {
      NoDuplicatesCardinality(upTo);
      forall p | p in Members(upTo) ensures p in reach {
        var i :| 0 <= i < |upTo| && upTo[i] == p;
        assert values[i] == row[p] && values[i] >= values[j];
      }
      SubsetCardinality(Members(upTo), reach);
    } else {
      NoDuplicatesCardinality(before);
      forall p | p in reach ensures p in Members(before) {
        assert row[p] > values[j];
        assert p in picked;
        var i :| 0 <= i < n && picked[i] == p;
        assert values[i] == row[p];
        assert i < j;
        assert before[i] == p;
      }
      SubsetCardinality(reach, Members(before));
    }
  }

  lemma CausalPart(row: seq<nat>, end: nat, bound: nat)
    requires CausalScores(row, end) && bound > NEGATIVE_INFINITY_KEY
    ensures Reaching(row, |row|, bound) == Reaching(row, end, bound)
  {
  }

  /** The same over the causal part. */
  lemma CausalRank(row: seq<nat>, end: nat, n: nat, values: seq<nat>, picked: seq<nat>, j: nat, bound: nat)
    requires CausalScores(row, end) && AreTopValues(row, n, values, picked) && j < n && bound > NEGATIVE_INFINITY_KEY
    ensures values[j] >= bound <==> |Reaching(row, end, bound)| > j
  {
    TopRank(row, n, values, picked, j, bound);
    CausalPart(row, end, bound);
  }

  lemma ReachingSplits(row: seq<nat>, end: nat, cutoff: nat)
    requires cutoff < KEY_SPACE
    ensures Reaching(row, end, cutoff) == Above(row, end, cutoff) + At(row, end, cutoff)
    ensures |Reaching(row, end, cutoff)| == |Above(row, end, cutoff)| + |At(row, end, cutoff)|
  {
    var above, at := Above(row, end, cutoff), At(row, end, cutoff);
    assert Reaching(row, end, cutoff) == above + at && above !! at;
  }

  /** The K-th and the next largest scores of a row are finite. */
  ghost predicate FiniteCutoff(row: seq<nat>, end: nat, k: nat) {
    && |Reaching(row, end, NEGATIVE_INFINITY_KEY + 1)| > k
    && |Reaching(row, end, POSITIVE_INFINITY_KEY)| < k
  }

  lemma FinitenessOfTop(row: seq<nat>, end: nat, k: nat, values: seq<nat>, picked: seq<nat>)
    requires CausalScores(row, end) && k > 0 && AreTopValues(row, k + 1, values, picked)
    ensures IsFiniteKey(values[k - 1]) && IsFiniteKey(values[k]) <==> FiniteCutoff(row, end, k)
  {
    CausalRank(row, end, k + 1, values, picked, k, NEGATIVE_INFINITY_KEY + 1);
    CausalRank(row, end, k + 1, values, picked, k - 1, POSITIVE_INFINITY_KEY);
    assert values[k] <= values[k - 1];
  }

  lemma TopNumbers(row: seq<nat>, end: nat, k: nat, values: seq<nat>, picked: seq<nat>)
    requires CausalScores(row, end) && k > 0 && AreTopValues(row, k + 1, values, picked)
    requires IsFiniteKey(values[k - 1])
    ensures |Reaching(row, end, values[k - 1] + 1)| < k <= |Reaching(row, end, values[k - 1])|
    ensures values[k] <= values[k - 1]
    ensures values[k - 1] == values[k] <==> |Reaching(row, end, values[k - 1])| > k
  {
    var cutoff := values[k - 1];
    CausalRank(row, end, k + 1, values, picked, k - 1, cutoff + 1);
    CausalRank(row, end, k + 1, values, picked, k - 1, cutoff);
    CausalRank(row, end, k + 1, values, picked, k, cutoff);
  }

  lemma CutoffFromNumbers(row: seq<nat>, end: nat, k: nat, cutoff: nat)
    requires cutoff < KEY_SPACE && |Reaching(row, end, cutoff + 1)| < k <= |Reaching(row, end, cutoff)|
    ensures IsKthLargest(row, Interval(0, end), k, cutoff, k - |Above(row, end, cutoff)|)
    ensures |Reaching(row, end, cutoff)| == |Above(row, end, cutoff)| + |At(row, end, cutoff)|
  {
    ReachingSplits(row, end, cutoff);
  }

  /** The K-th top value is the cutoff, the next one tells whether it is tied, and the top K
      values count what lies above it. */
  lemma TopValuesGiveCutoff(row: seq<nat>, end: nat, k: nat, values: seq<nat>, picked: seq<nat>)
    requires CausalScores(row, end) && k > 0 && AreTopValues(row, k + 1, values, picked)
    requires IsFiniteKey(values[k - 1])
    ensures |Above(row, end, values[k - 1])| < k
    ensures IsKthLargest(row, Interval(0, end), k, values[k - 1], k - |Above(row, end, values[k - 1])|)
    ensures values[k] <= values[k - 1]
    ensures values[k - 1] == values[k] <==> |At(row, end, values[k - 1])| > k - |Above(row, end, values[k - 1])|
    ensures CountAbove(values[..k], values[k - 1]) == |Above(row, end, values[k - 1])|
  {
    TopNumbers(row, end, k, values, picked);
    CutoffFromNumbers(row, end, k, values[k - 1]);
    TopCountsAbove(row, end, k, values, picked);
  }

  lemma TopCountsAbove(row: seq<nat>, end: nat, k: nat, values: seq<nat>, picked: seq<nat>)
    requires CausalScores(row, end) && k > 0 && AreTopValues(row, k + 1, values, picked)
    requires IsFiniteKey(values[k - 1])
    ensures CountAbove(values[..k], values[k - 1]) == |Above(row, end, values[k - 1])|
  {
    var cutoff := values[k - 1];
    CountAboveIsCardinality(row, picked[..k], values[..k], cutoff);
    forall p: nat | p < |row| && row[p] > cutoff ensures p in picked[..k] && p < end {
      assert p in picked;
      var i :| 0 <= i <= k && picked[i] == p;
      assert values[i] == row[p];
      assert picked[..k][i] == p;
    }
    assert AboveAmong(row, picked[..k], cutoff) == Above(row, end, cutoff);
  }

  // ---------- exactness in terms of the cutoff ----------

  lemma ExactTakesAbove(row: seq<nat>, end: nat, k: nat, cutoff: nat, out: seq<int>, g: nat)
    requires end <= |row| && end > k && |Above(row, end, cutoff)| < k && cutoff < KEY_SPACE
    requires IsExactRow(RowKey(row), out, 0, end, k) && g in Above(row, end, cutoff)
    requires forall id :: 0 <= id < |row| ==> row[id] < KEY_SPACE
    ensures g in SelectedIds(out)
  {
    if g !in SelectedIds(out) {
      forall v | v in SelectedIds(out) ensures v in Above(row, end, cutoff) {
        assert RowKey(row)(g) <= RowKey(row)(v);
      }
      SubsetCardinality(SelectedIds(out), Above(row, end, cutoff));
    }
  }

  lemma ExactTakesNothingBelow(row: seq<nat>, end: nat, k: nat, cutoff: nat, out: seq<int>, v: nat)
    requires end <= |row| && end > k && |Reaching(row, end, cutoff)| >= k && cutoff < KEY_SPACE
    requires IsExactRow(RowKey(row), out, 0, end, k) && v in SelectedIds(out)
    requires forall id :: 0 <= id < |row| ==> row[id] < KEY_SPACE
    ensures v in Reaching(row, end, cutoff)
  {
    var reach := Reaching(row, end, cutoff);
    if v !in reach {
      forall g | g in reach ensures g in SelectedIds(out) - {v} {
        assert g !in SelectedIds(out) ==> RowKey(row)(g) <= RowKey(row)(v);
      }
      SubsetCardinality(reach, SelectedIds(out) - {v});
    }
  }

  lemma BetweenIsExact(row: seq<nat>, end: nat, k: nat, cutoff: nat, out: seq<int>)
    requires CausalScores(row, end) && IsWellFormedRow(out, 0, end, k)
    requires Above(row, end, cutoff) <= SelectedIds(out) <= Reaching(row, end, cutoff)
    ensures IsExactRow(RowKey(row), out, 0, end, k)
  {
    forall i: nat, j: nat | i in SelectedIds(out) && 0 <= j < end && j !in SelectedIds(out)
      ensures RowKey(row)(j) <= RowKey(row)(i)
    {
      assert i in Reaching(row, end, cutoff);
      assert j !in Above(row, end, cutoff);
    }
  }

  lemma ExactIsBetween(row: seq<nat>, end: nat, k: nat, cutoff: nat, out: seq<int>)
    requires CausalScores(row, end) && end > k && cutoff < KEY_SPACE && IsExactRow(RowKey(row), out, 0, end, k)
    requires |Above(row, end, cutoff)| < k <= |Reaching(row, end, cutoff)|
    ensures Above(row, end, cutoff) <= SelectedIds(out) <= Reaching(row, end, cutoff)
  {
    forall g | g in Above(row, end, cutoff) ensures g in SelectedIds(out) {
      ExactTakesAbove(row, end, k, cutoff, out, g);
    }
    forall v | v in SelectedIds(out) ensures v in Reaching(row, end, cutoff) {
      ExactTakesNothingBelow(row, end, k, cutoff, out, v);
    }
  }

  /** What being the K-th largest score says about the scores around it. */
  lemma CutoffCounts(row: seq<nat>, end: nat, k: nat, cutoff: nat, required: nat)
    requires IsKthLargest(row, Interval(0, end), k, cutoff, required)
    ensures cutoff < KEY_SPACE && |Above(row, end, cutoff)| < k <= |Reaching(row, end, cutoff)|
    ensures Reaching(row, end, cutoff) == Above(row, end, cutoff) + At(row, end, cutoff)
  {
    ReachingSplits(row, end, cutoff);
  }

  lemma BetweenMeansExact(row: seq<nat>, end: nat, k: nat, cutoff: nat, out: seq<int>)
    requires CausalScores(row, end) && end > k && cutoff < KEY_SPACE && IsWellFormedRow(out, 0, end, k)
    requires |Above(row, end, cutoff)| < k <= |Reaching(row, end, cutoff)|
    ensures IsExactRow(RowKey(row), out, 0, end, k) <==>
      Above(row, end, cutoff) <= SelectedIds(out) <= Reaching(row, end, cutoff)
  {
    if IsExactRow(RowKey(row), out, 0, end, k) {
      ExactIsBetween(row, end, k, cutoff, out);
    }
    if Above(row, end, cutoff) <= SelectedIds(out) <= Reaching(row, end, cutoff) {
      BetweenIsExact(row, end, k, cutoff, out);
    }
  }

  /** With more than K tokens to choose from, a well-formed row is exact exactly when it takes
      everything above the cutoff and nothing below it. */
  lemma ExactMeansBetween(row: seq<nat>, end: nat, k: nat, cutoff: nat, required: nat, out: seq<int>)
    requires CausalScores(row, end) && end > k && IsKthLargest(row, Interval(0, end), k, cutoff, required)
    requires IsWellFormedRow(out, 0, end, k)
    ensures Reaching(row, end, cutoff) == Above(row, end, cutoff) + At(row, end, cutoff)
    ensures IsExactRow(RowKey(row), out, 0, end, k) <==>
      Above(row, end, cutoff) <= SelectedIds(out) <= Above(row, end, cutoff) + At(row, end, cutoff)
  {
    CutoffCounts(row, end, k, cutoff, required);
    BetweenMeansExact(row, end, k, cutoff, out);
  }

  /** A row with at most K tokens must take them all. */
  lemma ShortRowsTakeAll(key: nat -> nat, out: seq<int>, end: nat, k: nat)
    requires IsWellFormedRow(out, 0, end, k) && end <= k
    ensures SelectedIds(out) == Interval(0, end)
    ensures IsExactRow(key, out, 0, end, k)
  {
    SubsetCardinality(SelectedIds(out), Interval(0, end));
  }

  // ---------- building the oracle ----------

  /** What is kept of a tied row. */
  datatype TieRow = TieRow(boundary: set<nat>, required: int, strictlyGreater: nat)

  /** The oracle of one row with more than K tokens: its tie data when the cutoff is shared
      by more tokens than fit, nothing otherwise. */
  ghost predicate IsRowOracle(row: seq<nat>, end: nat, k: nat, cutoff: nat, required: nat, tie: Option<TieRow>) {
    && IsKthLargest(row, Interval(0, end), k, cutoff, required)
    && tie == if |At(row, end, cutoff)| > required
              then Some(TieRow(At(row, end, cutoff), required, |Above(row, end, cutoff)|)) else None
  }

  ghost predicate HasRowOracle(row: seq<nat>, end: nat, k: nat, tie: Option<TieRow>) {
    exists cutoff: nat, required: nat :: IsRowOracle(row, end, k, cutoff, required, tie)
  }

  function Lookup(ties: map<nat, TieRow>, r: nat): Option<TieRow> {
    if r in ties then Some(ties[r]) else None
  }

  /** The row has more than K tokens to choose from. */
  predicate Eligible(c: Case, r: nat)
    requires c.queryTokens <= c.contextTokens
  {
    c.CausalEnd(r) > c.topK
  }

  ghost predicate IsRowTie(row: seq<nat>, c: Case, r: nat, tie: Option<TieRow>)
    requires c.Valid()
  {
    if Eligible(c, r) then HasRowOracle(row, c.CausalEnd(r), c.topK, tie) else tie == None
  }

  ghost predicate IsOracle(scores: seq<seq<nat>>, c: Case, ties: map<nat, TieRow>)
    requires c.Valid() && |scores| == c.queryTokens
  {
    forall r :: 0 <= r < c.queryTokens ==> IsRowTie(scores[r], c, r, Lookup(ties, r))
  }

  ghost predicate ScoresValid(scores: seq<seq<nat>>, c: Case)
    requires c.Valid()
  {
    ShapeMatches(scores, c.queryTokens, c.contextTokens) ==>
      forall r :: 0 <= r < c.queryTokens ==> CausalScores(scores[r], c.CausalEnd(r))
  }

  datatype OracleError =
    | ScoreShape | BaselineRejected | NonFiniteCutoff | NotMonotone | BelowCutoff | OmittedAbove
    | InvalidWidth | OmittedInTie | WrongTieCount | NoAlternatives

  /** The entries a row's IDs select; every accepted ID is in range. */
  function GatherScores(row: seq<nat>, ids: seq<int>): (values: seq<nat>)
    ensures |values| == |ids|
  {
    seq(|ids|, j requires 0 <= j < |ids| => if 0 <= ids[j] < |row| then row[ids[j]] else 0)
  }

  predicate SelectsBelow(row: seq<nat>, ids: seq<int>, cutoff: nat) {
    exists j :: 0 <= j < |ids| && GatherScores(row, ids)[j] < cutoff
  }

  predicate GreaterCountMatches(row: seq<nat>, ids: seq<int>, top: seq<nat>, cutoff: nat) {
    CountAbove(GatherScores(row, ids), cutoff) == CountAbove(top, cutoff)
  }

  lemma SelectsBelowMeans(row: seq<nat>, end: nat, k: nat, cutoff: nat, out: seq<int>)
    requires CausalScores(row, end) && end > k && cutoff < KEY_SPACE && IsWellFormedRow(out, 0, end, k)
    ensures SelectsBelow(row, out, cutoff) <==> !(SelectedIds(out) <= Reaching(row, end, cutoff))
  {
    SelectedAreAll(out, end, k);
    if SelectsBelow(row, out, cutoff) {
      var j :| 0 <= j < k && GatherScores(row, out)[j] < cutoff;
      assert out[j] in SelectedIds(out);
    }
    if v :| v in SelectedIds(out) && v !in Reaching(row, end, cutoff) {
      var j :| 0 <= j < k && out[j] == v;
      assert GatherScores(row, out)[j] < cutoff;
    }
  }

  /** The selected IDs above the cutoff. */
  lemma TakenAbove(row: seq<nat>, end: nat, k: nat, cutoff: nat, out: seq<int>) returns (taken: set<nat>)
    requires CausalScores(row, end) && end > k && IsWellFormedRow(out, 0, end, k)
    ensures CountAbove(GatherScores(row, out), cutoff) == |taken|
    ensures forall id: nat :: id in taken <==> id in Above(row, end, cutoff) && id in SelectedIds(out)
  {
    SelectedAreAll(out, end, k);
    var ids: seq<nat> := seq(k, j requires 0 <= j < k => out[j]);
    CountAboveIsCardinality(row, ids, GatherScores(row, out), cutoff);
    taken := AboveAmong(row, ids, cutoff);
    forall id: nat ensures id in ids <==> id in SelectedIds(out) {
      if id in SelectedIds(out) {
        var j :| 0 <= j < k && out[j] == id;
        assert ids[j] == id;
      }
    }
  }

  lemma GreaterCountMeans(row: seq<nat>, end: nat, k: nat, cutoff: nat, out: seq<int>)
    requires CausalScores(row, end) && end > k && IsWellFormedRow(out, 0, end, k)
    ensures CountAbove(GatherScores(row, out), cutoff) == |Above(row, end, cutoff)| <==>
      Above(row, end, cutoff) <= SelectedIds(out)
  {
    var taken := TakenAbove(row, end, k, cutoff, out);
    SubsetCardinality(taken, Above(row, end, cutoff));
    if Above(row, end, cutoff) <= SelectedIds(out) {
      assert taken == Above(row, end, cutoff);
    }
  }

  /** The vectorized checks accept a baseline row exactly when it is exact. */
  lemma RowChecksMeanExact(row: seq<nat>, end: nat, k: nat, values: seq<nat>, picked: seq<nat>, out: seq<int>)
    requires CausalScores(row, end) && end > k > 0 && AreTopValues(row, k + 1, values, picked)
    requires IsFiniteKey(values[k - 1]) && IsWellFormedRow(out, 0, end, k)
    ensures !SelectsBelow(row, out, values[k - 1]) && GreaterCountMatches(row, out, values[..k], values[k - 1]) <==>
      IsExactRow(RowKey(row), out, 0, end, k)
  {
    var cutoff := values[k - 1];
    TopValuesGiveCutoff(row, end, k, values, picked);
    ExactMeansBetween(row, end, k, cutoff, k - |Above(row, end, cutoff)|, out);
    SelectsBelowMeans(row, end, k, cutoff, out);
    GreaterCountMeans(row, end, k, cutoff, out);
  }

  lemma SelectedAreAll(out: seq<int>, end: nat, k: nat)
    requires IsWellFormedRow(out, 0, end, k) && end >= k
    ensures forall j :: 0 <= j < k ==> 0 <= out[j] < end
    ensures NoDuplicates(out) && SelectedIds(out) == Members(out)
  {
    RowMultiplicities(out, end, k);
    Counting(out);
    forall j | 0 <= j < k ensures 0 <= out[j] < end {
      assert out[j] in multiset(out);
      assert out[j] in SelectedIds(out);
    }
    forall i, j | 0 <= i < j < k ensures out[i] != out[j] {
      if out[i] == out[j] {
        RepeatsAt(out, i, j);
      }
    }
  }

  /** The boundary IDs of a causal row. */
  function BoundaryIds(row: seq<nat>, end: nat, cutoff: nat): (ids: set<nat>)
    requires end <= |row|
    ensures ids == At(row, end, cutoff)
  {
    set id | id in Interval(0, end) && row[id] == cutoff
  }

  function AboveIds(row: seq<nat>, end: nat, cutoff: nat): (ids: set<nat>)
    requires CausalScores(row, end)
    ensures ids == Above(row, end, cutoff)
  {
    set id | id in Interval(0, end) && row[id] > cutoff
  }

  /** The tie branch's own checks, in order. */
  function TieDefect(selected: set<int>, boundary: set<nat>, strictlyGreater: nat, k: nat): Option<OracleError> {
    var required := k - strictlyGreater;
    if |selected| != k then Some(InvalidWidth)
    else if |selected - boundary| != strictlyGreater then Some(OmittedInTie)
    else if |selected * boundary| != required then Some(WrongTieCount)
    else if |boundary| <= required then Some(NoAlternatives)
    else None
  }

  /** Which check fires on any sets at all. The third never does: with k members, counting
      those outside the boundary counts those inside. */
  lemma TieDefects(selected: set<int>, boundary: set<nat>, strictlyGreater: nat, k: nat)
    ensures
      var defect := TieDefect(selected, boundary, strictlyGreater, k);
      var outside := |set v | v in selected && v !in boundary|;
      && (defect == Some(InvalidWidth) <==> |selected| != k)
      && (defect == Some(OmittedInTie) <==> |selected| == k && outside != strictlyGreater)
      && (defect == Some(NoAlternatives) <==>
            |selected| == k && outside == strictlyGreater && |boundary| + strictlyGreater <= k)
      && (defect == None <==>
            |selected| == k && outside == strictlyGreater && |boundary| + strictlyGreater > k)
  {
    var outside := set v | v in selected && v !in boundary;
    assert selected - boundary == outside;
    assert selected == outside + selected * boundary && outside !! selected * boundary;
    assert |selected| == |outside| + |selected * boundary|;
  }

  /** On an exact row whose cutoff is tied the tie branch finds nothing wrong. */
  lemma TieChecksPass(row: seq<nat>, end: nat, k: nat, cutoff: nat, required: nat, out: seq<int>)
    requires CausalScores(row, end) && end > k && IsKthLargest(row, Interval(0, end), k, cutoff, required)
    requires IsExactRow(RowKey(row), out, 0, end, k) && |At(row, end, cutoff)| > required
    ensures required == k - |Above(row, end, cutoff)|
    ensures TieDefect(SelectedIds(out), At(row, end, cutoff), |Above(row, end, cutoff)|, k) == None
  {
    var above, at, chosen := Above(row, end, cutoff), At(row, end, cutoff), SelectedIds(out);
    ExactMeansBetween(row, end, k, cutoff, required, out);
    assert chosen - at == above;
    assert chosen == above + chosen * at;
    assert above !! chosen * at;
    assert |chosen| == |above| + |chosen * at|;
  }

  /** On a row with a tied cutoff that takes nothing below it, the tie branch finds nothing
      wrong exactly when the row is exact. */
  lemma TieChecksDecide(row: seq<nat>, end: nat, k: nat, cutoff: nat, required: nat, out: seq<int>)
    requires CausalScores(row, end) && end > k && IsKthLargest(row, Interval(0, end), k, cutoff, required)
    requires IsWellFormedRow(out, 0, end, k) && |At(row, end, cutoff)| > required
    requires SelectedIds(out) <= Reaching(row, end, cutoff)
    ensures TieDefect(SelectedIds(out), At(row, end, cutoff), |Above(row, end, cutoff)|, k) == None <==>
      IsExactRow(RowKey(row), out, 0, end, k)
  {
    var above, at := Above(row, end, cutoff), At(row, end, cutoff);
    ExactMeansBetween(row, end, k, cutoff, required, out);
    if IsExactRow(RowKey(row), out, 0, end, k) {
      TieChecksPass(row, end, k, cutoff, required, out);
    } else {
      MissingAbove(above, at, SelectedIds(out));
    }
  }

  /** A set between nothing and both that misses a member of the first has fewer than it
      outside the second. */
  lemma MissingAbove(above: set<nat>, at: set<nat>, chosen: set<int>)
    requires above !! at && !(above <= chosen) && forall v :: v in chosen ==> v in above || v in at
    ensures |chosen - at| < |above|
  {
    var missing: nat :| missing in above && missing !in chosen;
    forall v | v in chosen - at ensures v in above - {missing} {
      assert v in chosen;
    }
    SubsetCardinality<int>(chosen - at, above - {missing});
  }

  function FirstError(earlier: Option<OracleError>, later: Option<OracleError>): Option<OracleError> {
    if earlier.Some? then earlier else later
  }

  function Conclude(defect: Option<OracleError>, ties: map<nat, TieRow>): Result<map<nat, TieRow>, OracleError> {
    match defect
    case None => Ok(ties)
    case Some(error) => Err(error)
  }

  /** The j-th largest value, counting from one. */
  function KthValue(top: seq<nat>, j: nat): nat {
    if 0 < j <= |top| then top[j - 1] else 0
  }

  function Leading(top: seq<nat>, k: nat): seq<nat> {
    if k <= |top| then top[..k] else top
  }

  /** The values the library returns for a row with more than K tokens. */
  ghost predicate IsRowTop(row: seq<nat>, c: Case, r: nat, top: seq<nat>, picked: seq<nat>)
    requires c.Valid()
  {
    Eligible(c, r) ==> AreTopValues(row, c.topK + 1, top, picked)
  }

  predicate RowFinite(c: Case, r: nat, top: seq<nat>)
    requires c.queryTokens <= c.contextTokens
  {
    Eligible(c, r) ==> IsFiniteKey(KthValue(top, c.topK)) && IsFiniteKey(KthValue(top, c.topK + 1))
  }

  predicate RowBelow(row: seq<nat>, out: seq<int>, c: Case, r: nat, top: seq<nat>)
    requires c.queryTokens <= c.contextTokens
  {
    Eligible(c, r) && SelectsBelow(row, out, KthValue(top, c.topK))
  }

  predicate RowOmits(row: seq<nat>, out: seq<int>, c: Case, r: nat, top: seq<nat>)
    requires c.queryTokens <= c.contextTokens
  {
    Eligible(c, r) && !GreaterCountMatches(row, out, Leading(top, c.topK), KthValue(top, c.topK))
  }

  predicate RowNotMonotone(c: Case, r: nat, top: seq<nat>)
    requires c.queryTokens <= c.contextTokens
  {
    Eligible(c, r) && KthValue(top, c.topK) < KthValue(top, c.topK + 1)
  }

  /** The top K + 1 values of every row with more than K tokens. */
  method AllTopValues(scores: seq<seq<nat>>, c: Case) returns (tops: seq<seq<nat>>, picks: seq<seq<nat>>)
    requires c.Valid() && ShapeMatches(scores, c.queryTokens, c.contextTokens)
    ensures |tops| == |picks| == c.queryTokens
    ensures forall r :: 0 <= r < c.queryTokens ==> IsRowTop(scores[r], c, r, tops[r], picks[r])
  {
    tops, picks := [], [];
    for r := 0 to c.queryTokens
      invariant |tops| == |picks| == r
      invariant forall q :: 0 <= q < r ==> IsRowTop(scores[q], c, q, tops[q], picks[q])
    {
      var values: seq<nat> := [];
      var picked: seq<nat> := [];
      if Eligible(c, r) {
        values, picked := TopValues(scores[r], c.topK + 1);
      }
      tops, picks := tops + [values], picks + [picked];
    }
  }

  /** The tie loop over one row. */
  method TieOfRow(row: seq<nat>, end: nat, k: nat, top: seq<nat>, ghost picked: seq<nat>, out: seq<int>)
    returns (tie: Option<TieRow>, defect: Option<OracleError>)
    requires CausalScores(row, end) && end > k > 0 && AreTopValues(row, k + 1, top, picked)
    requires IsFiniteKey(top[k - 1]) && IsExactRow(RowKey(row), out, 0, end, k)
    ensures defect == None && HasRowOracle(row, end, k, tie)
  {
    var cutoff := top[k - 1];
    TopValuesGiveCutoff(row, end, k, top, picked);
    ghost var required := k - |Above(row, end, cutoff)|;
    tie, defect := None, None;
    if top[k - 1] == top[k] {
      var boundary, greater := BoundaryIds(row, end, cutoff), |AboveIds(row, end, cutoff)|;
      TieChecksPass(row, end, k, cutoff, required, out);
      defect := TieDefect(SelectedIds(out), boundary, greater, k);
      tie := Some(TieRow(boundary, k - greater, greater));
    }
    assert IsRowOracle(row, end, k, cutoff, required, tie);
  }

  ghost predicate RowExact(row: seq<nat>, out: seq<int>, c: Case, r: nat)
    requires c.Valid()
  {
    IsExactRow(RowKey(row), out, 0, c.CausalEnd(r), c.topK)
  }

  ghost predicate AllExact(scores: seq<seq<nat>>, indices: seq<seq<int>>, c: Case)
    requires c.Valid() && |scores| == c.queryTokens
  {
    && |indices| == c.queryTokens
    && forall r :: 0 <= r < c.queryTokens ==> RowExact(scores[r], indices[r], c, r)
  }

  ghost predicate RowCutoffFinite(row: seq<nat>, c: Case, r: nat)
    requires c.Valid()
  {
    Eligible(c, r) ==> FiniteCutoff(row, c.CausalEnd(r), c.topK)
  }

  /** Every row with more than K tokens has a finite cutoff. */
  ghost predicate FiniteCutoffs(scores: seq<seq<nat>>, c: Case)
    requires c.Valid() && |scores| == c.queryTokens
  {
    forall r {:trigger RowCutoffFinite(scores[r], c, r)} ::
      0 <= r < c.queryTokens ==> RowCutoffFinite(scores[r], c, r)
  }

  /** What the vectorized checks learn about a row with more than K tokens. */
  lemma LongRowFacts(row: seq<nat>, end: nat, k: nat, top: seq<nat>, picked: seq<nat>, out: seq<int>)
    requires CausalScores(row, end) && end > k > 0 && AreTopValues(row, k + 1, top, picked)
    requires IsWellFormedRow(out, 0, end, k)
    ensures IsFiniteKey(top[k - 1]) && IsFiniteKey(top[k]) <==> FiniteCutoff(row, end, k)
    ensures FiniteCutoff(row, end, k) ==> top[k] <= top[k - 1]
    ensures FiniteCutoff(row, end, k) ==>
      (IsExactRow(RowKey(row), out, 0, end, k) <==>
       !SelectsBelow(row, out, top[k - 1]) && GreaterCountMatches(row, out, top[..k], top[k - 1]))
  {
    FinitenessOfTop(row, end, k, top, picked);
    if FiniteCutoff(row, end, k) {
      RowChecksMeanExact(row, end, k, top, picked, out);
      TopNumbers(row, end, k, top, picked);
    }
  }

  /** What they learn about any row. */
  lemma RowFacts(row: seq<nat>, out: seq<int>, c: Case, r: nat, top: seq<nat>, picked: seq<nat>)
    requires c.Valid() && CausalScores(row, c.CausalEnd(r)) && IsRowTop(row, c, r, top, picked)
    requires IsWellFormedRow(out, 0, c.CausalEnd(r), c.topK)
    ensures RowFinite(c, r, top) <==> RowCutoffFinite(row, c, r)
    ensures RowFinite(c, r, top) ==> !RowNotMonotone(c, r, top)
    ensures RowFinite(c, r, top) ==>
      (RowExact(row, out, c, r) <==> !RowBelow(row, out, c, r, top) && !RowOmits(row, out, c, r, top))
  {
    if Eligible(c, r) {
      LongRowFacts(row, c.CausalEnd(r), c.topK, top, picked, out);
    } else {
      ShortRowsTakeAll(RowKey(row), out, c.CausalEnd(r), c.topK);
    }
  }

  /** One row of the tie loop. */
  method TieOf(row: seq<nat>, out: seq<int>, c: Case, r: nat, top: seq<nat>, ghost picked: seq<nat>)
    returns (tie: Option<TieRow>, defect: Option<OracleError>)
    requires c.Valid() && CausalScores(row, c.CausalEnd(r)) && IsRowTop(row, c, r, top, picked)
    requires RowFinite(c, r, top) && RowExact(row, out, c, r)
    ensures defect == None && IsRowTie(row, c, r, tie)
  {
    tie, defect := None, None;
    if Eligible(c, r) {
      tie, defect := TieOfRow(row, c.CausalEnd(r), c.topK, top, picked, out);
    }
  }

  function Record(ties: map<nat, TieRow>, r: nat, tie: Option<TieRow>): (recorded: map<nat, TieRow>)
    requires r !in ties
    ensures forall q :: Lookup(recorded, q) == if q == r then tie else Lookup(ties, q)
  {
    if tie.Some? then ties[r := tie.value] else ties
  }

  /** The tie loop over all rows whose baseline passed. */
  method CollectTies(
      scores: seq<seq<nat>>, baseline: seq<seq<int>>, c: Case, tops: seq<seq<nat>>, ghost picks: seq<seq<nat>>)
    returns (ties: map<nat, TieRow>, defect: Option<OracleError>)
    requires c.Valid() && |scores| == |baseline| == |tops| == |picks| == c.queryTokens
    requires forall r :: 0 <= r < c.queryTokens ==>
      CausalScores(scores[r], c.CausalEnd(r)) && IsRowTop(scores[r], c, r, tops[r], picks[r]) &&
      RowFinite(c, r, tops[r]) && RowExact(scores[r], baseline[r], c, r)
    ensures defect == None && IsOracle(scores, c, ties)
  {
    ties, defect := map[], None;
    for r := 0 to c.queryTokens
      invariant defect == None && forall q :: q in ties ==> q < r
      invariant forall q :: 0 <= q < r ==> IsRowTie(scores[q], c, q, Lookup(ties, q))
    {
      var tie, found := TieOf(scores[r], baseline[r], c, r, tops[r], picks[r]);
      ties, defect := Record(ties, r, tie), FirstError(defect, found);
    }
  }

  // ---------- the same in the case's own numbers ----------

  /** How many tokens up to position `last` score at least `bound`. */
  ghost function Scoring(row: seq<nat>, last: nat, bound: nat): nat {
    (if last < |row| && row[last] >= bound then 1 else 0) + if last == 0 then 0 else Scoring(row, last - 1, bound)
  }

  /** A row at position `last` lists its positions, and leaves none out that scores more than
      one it takes. */
  ghost predicate TakesBest(row: seq<nat>, out: seq<int>, last: nat, k: nat) {
    && ListsPositions(out, last, k)
    && forall i: nat, j: nat :: i in out && j <= last && j !in out ==> i < |row| && j < |row| && row[j] <= row[i]
  }

  ghost predicate RowTakesBest(row: seq<nat>, out: seq<int>, c: Case, r: nat)
    requires c.queryTokens <= c.contextTokens
  {
    TakesBest(row, out, c.contextTokens - c.queryTokens + r, c.topK)
  }

  ghost predicate AllTakeBest(scores: seq<seq<nat>>, indices: seq<seq<int>>, c: Case)
    requires c.queryTokens <= c.contextTokens && |scores| == c.queryTokens
  {
    |indices| == c.queryTokens &&
    forall r {:trigger RowTakesBest(scores[r], indices[r], c, r)} ::
      0 <= r < c.queryTokens ==> RowTakesBest(scores[r], indices[r], c, r)
  }

  /** With more than K tokens, the K-th and the next score are finite. */
  ghost predicate CutoffFinite(row: seq<nat>, last: nat, k: nat) {
    last >= k ==>
      Scoring(row, last, NEGATIVE_INFINITY_KEY + 1) > k && Scoring(row, last, POSITIVE_INFINITY_KEY) < k
  }

  ghost predicate CutoffFiniteAt(row: seq<nat>, c: Case, r: nat)
    requires c.queryTokens <= c.contextTokens
  {
    CutoffFinite(row, c.contextTokens - c.queryTokens + r, c.topK)
  }

  ghost predicate AllCutoffsFinite(scores: seq<seq<nat>>, c: Case)
    requires c.queryTokens <= c.contextTokens && |scores| == c.queryTokens
  {
    forall r {:trigger CutoffFiniteAt(scores[r], c, r)} ::
      0 <= r < c.queryTokens ==> CutoffFiniteAt(scores[r], c, r)
  }

  /** The row takes an ID that K others beat, or leaves one out that fewer than K others match. */
  ghost predicate TakesBelow(row: seq<nat>, out: seq<int>, last: nat, k: nat) {
    last >= k && exists id: nat :: id in out && id <= last && id < |row| && Scoring(row, last, row[id] + 1) >= k
  }

  ghost predicate LeavesAbove(row: seq<nat>, out: seq<int>, last: nat, k: nat) {
    last >= k && exists id: nat :: id !in out && id <= last && id < |row| && Scoring(row, last, row[id]) < k
  }

  lemma OneMoreReaching(row: seq<nat>, last: nat, bound: nat)
    requires last < |row| && row[last] < KEY_SPACE
    ensures |Reaching(row, last + 1, bound)| == |Reaching(row, last, bound)| + if row[last] >= bound then 1 else 0
  {
    assert Reaching(row, last + 1, bound) == Reaching(row, last, bound) + if row[last] >= bound then {last} else {};
    assert last !in Reaching(row, last, bound);
  }

  lemma {:induction false} ScoringIsReaching(row: seq<nat>, last: nat, bound: nat)
    requires last < |row| && forall id :: 0 <= id < |row| ==> row[id] < KEY_SPACE
    ensures Scoring(row, last, bound) == |Reaching(row, last + 1, bound)|
  {
    OneMoreReaching(row, last, bound);
    if last == 0 {
      assert Reaching(row, 0, bound) == {};
    } else {
      ScoringIsReaching(row, last - 1, bound);
    }
  }

  lemma {:induction false} ScoringShrinks(row: seq<nat>, last: nat, low: nat, high: nat)
    requires low <= high
    ensures Scoring(row, last, high) <= Scoring(row, last, low)
  {
    if last > 0 {
      ScoringShrinks(row, last - 1, low, high);
    }
  }

  lemma {:induction false} ExactTakesBest(row: seq<nat>, out: seq<int>, last: nat, k: nat)
    requires last < |row|
    ensures IsExactRow(RowKey(row), out, 0, last + 1, k) <==> TakesBest(row, out, last, k)
  {
    WellFormedLists(out, last, k);
    forall i: nat ensures i in out <==> i in SelectedIds(out) {
    }
    if IsExactRow(RowKey(row), out, 0, last + 1, k) {
      forall i: nat, j: nat | i in out && j <= last && j !in out
        ensures i < |row| && j < |row| && row[j] <= row[i]
      {
        assert i in SelectedIds(out);
        assert RowKey(row)(j) <= RowKey(row)(i);
      }
    }
    if TakesBest(row, out, last, k) {
      forall i: nat, j: nat | i in SelectedIds(out) && 0 <= j < last + 1 && j !in SelectedIds(out)
        ensures RowKey(row)(j) <= RowKey(row)(i)
      {
        assert i in out && j !in out;
      }
    }
  }

  lemma {:induction false} RowExactTakesBest(row: seq<nat>, out: seq<int>, c: Case, r: nat)
    requires c.Valid() && |row| == c.contextTokens && r < c.queryTokens
    ensures RowExact(row, out, c, r) <==> RowTakesBest(row, out, c, r)
  {
    ExactTakesBest(row, out, c.contextTokens - c.queryTokens + r, c.topK);
  }

  lemma {:induction false} AllExactTakeBest(scores: seq<seq<nat>>, indices: seq<seq<int>>, c: Case)
    requires c.Valid() && ShapeMatches(scores, c.queryTokens, c.contextTokens)
    ensures AllExact(scores, indices, c) <==> AllTakeBest(scores, indices, c)
  {
    if AllExact(scores, indices, c) {
      forall r | 0 <= r < c.queryTokens ensures RowTakesBest(scores[r], indices[r], c, r) {
        assert RowExact(scores[r], indices[r], c, r);
        RowExactTakesBest(scores[r], indices[r], c, r);
      }
    }
    if AllTakeBest(scores, indices, c) {
      forall r | 0 <= r < c.queryTokens ensures RowExact(scores[r], indices[r], c, r) {
        assert RowTakesBest(scores[r], indices[r], c, r);
        RowExactTakesBest(scores[r], indices[r], c, r);
      }
    }
  }

  lemma {:induction false} CutoffFiniteMeans(row: seq<nat>, last: nat, k: nat)
    requires CausalScores(row, last + 1)
    ensures CutoffFinite(row, last, k) <==> (last + 1 > k ==> FiniteCutoff(row, last + 1, k))
  {
    ScoringIsReaching(row, last, NEGATIVE_INFINITY_KEY + 1);
    ScoringIsReaching(row, last, POSITIVE_INFINITY_KEY);
  }

  lemma {:induction false} RowCutoffFiniteMeans(row: seq<nat>, c: Case, r: nat)
    requires c.Valid() && CausalScores(row, c.CausalEnd(r))
    ensures CutoffFiniteAt(row, c, r) <==> RowCutoffFinite(row, c, r)
  {
    CutoffFiniteMeans(row, c.contextTokens - c.queryTokens + r, c.topK);
  }

  lemma {:induction false} AllCutoffsFiniteMeans(scores: seq<seq<nat>>, c: Case)
    requires c.Valid() && ShapeMatches(scores, c.queryTokens, c.contextTokens) && ScoresValid(scores, c)
    ensures AllCutoffsFinite(scores, c) <==> FiniteCutoffs(scores, c)
  {
    if FiniteCutoffs(scores, c) {
      forall r | 0 <= r < c.queryTokens ensures CutoffFiniteAt(scores[r], c, r) {
        assert RowCutoffFinite(scores[r], c, r);
        RowCutoffFiniteMeans(scores[r], c, r);
      }
    }
    if AllCutoffsFinite(scores, c) {
      forall r | 0 <= r < c.queryTokens ensures RowCutoffFinite(scores[r], c, r) {
        assert CutoffFiniteAt(scores[r], c, r);
        RowCutoffFiniteMeans(scores[r], c, r);
      }
    }
  }

  /** A cutoff: fewer than k tokens score more, at least k as much. */
  ghost predicate IsCutoff(row: seq<nat>, last: nat, k: nat, cutoff: nat) {
    Scoring(row, last, cutoff + 1) < k <= Scoring(row, last, cutoff)
  }

  /** The rank of a score tells on which side of the cutoff it is. */
  lemma {:induction false} RankTellsSide(row: seq<nat>, last: nat, k: nat, cutoff: nat, score: nat)
    requires IsCutoff(row, last, k, cutoff)
    ensures Scoring(row, last, score + 1) >= k <==> score < cutoff
    ensures Scoring(row, last, score) < k <==> score > cutoff
  {
    if score < cutoff {
      ScoringShrinks(row, last, score + 1, cutoff);
      ScoringShrinks(row, last, score, cutoff);
    } else {
      ScoringShrinks(row, last, cutoff + 1, score + 1);
      if score > cutoff {
        ScoringShrinks(row, last, cutoff + 1, score);
      }
    }
  }

  /** Taking an ID below the cutoff, and leaving one above it out, in terms of ranks. */
  lemma {:induction false} TakesBelowMeans(row: seq<nat>, last: nat, k: nat, cutoff: nat, out: seq<int>)
    requires CausalScores(row, last + 1) && last >= k && IsCutoff(row, last, k, cutoff)
    requires IsWellFormedRow(out, 0, last + 1, k)
    ensures TakesBelow(row, out, last, k) <==> !(SelectedIds(out) <= Reaching(row, last + 1, cutoff))
  {
    if TakesBelow(row, out, last, k) {
      var id: nat :| id in out && id <= last && id < |row| && Scoring(row, last, row[id] + 1) >= k;
      RankTellsSide(row, last, k, cutoff, row[id]);
      assert id in SelectedIds(out) && id !in Reaching(row, last + 1, cutoff);
    }
    if v :| v in SelectedIds(out) && v !in Reaching(row, last + 1, cutoff) {
      RankTellsSide(row, last, k, cutoff, row[v]);
    }
  }

  lemma {:induction false} LeavesAboveMeans(row: seq<nat>, last: nat, k: nat, cutoff: nat, out: seq<int>)
    requires CausalScores(row, last + 1) && last >= k && IsCutoff(row, last, k, cutoff)
    ensures LeavesAbove(row, out, last, k) <==> !(Above(row, last + 1, cutoff) <= SelectedIds(out))
  {
    if LeavesAbove(row, out, last, k) {
      var id: nat :| id !in out && id <= last && id < |row| && Scoring(row, last, row[id]) < k;
      RankTellsSide(row, last, k, cutoff, row[id]);
      assert id in Above(row, last + 1, cutoff) && id !in SelectedIds(out);
    }
    if id: nat :| id in Above(row, last + 1, cutoff) && id !in SelectedIds(out) {
      RankTellsSide(row, last, k, cutoff, row[id]);
    }
  }

  lemma {:induction false} CutoffByRank(row: seq<nat>, last: nat, k: nat, cutoff: nat)
    requires CausalScores(row, last + 1)
    ensures IsCutoff(row, last, k, cutoff) <==>
      |Reaching(row, last + 1, cutoff + 1)| < k <= |Reaching(row, last + 1, cutoff)|
  {
    ScoringIsReaching(row, last, cutoff);
    ScoringIsReaching(row, last, cutoff + 1);
  }

  /** The tokens at the cutoff, and those above it, by their ranks. */
  ghost function AtCutoff(row: seq<nat>, last: nat, k: nat): set<nat> {
    set id: nat | id <= last && id < |row| && Scoring(row, last, row[id] + 1) < k <= Scoring(row, last, row[id])
  }

  ghost function OverCutoff(row: seq<nat>, last: nat, k: nat): set<nat> {
    set id: nat | id <= last && id < |row| && Scoring(row, last, row[id]) < k
  }

  /** What is kept of a row: its boundary, when more tokens share the cutoff than fit. */
  ghost predicate KeepsTie(row: seq<nat>, last: nat, k: nat, tie: Option<TieRow>) {
    if last >= k then IsBoundary(AtCutoff(row, last, k), OverCutoff(row, last, k), k, tie) else tie == None
  }

  ghost predicate IsBoundary(at: set<nat>, over: set<nat>, k: nat, tie: Option<TieRow>) {
    tie == if |at| + |over| > k then Some(TieRow(at, k - |over|, |over|)) else None
  }

  lemma {:induction false} CutoffSets(row: seq<nat>, last: nat, k: nat, cutoff: nat)
    requires CausalScores(row, last + 1) && IsCutoff(row, last, k, cutoff)
    ensures AtCutoff(row, last, k) == At(row, last + 1, cutoff)
    ensures OverCutoff(row, last, k) == Above(row, last + 1, cutoff)
  {
    forall id: nat ensures id in AtCutoff(row, last, k) <==> id in At(row, last + 1, cutoff) {
      if id <= last { RankTellsSide(row, last, k, cutoff, row[id]); }
    }
    forall id: nat ensures id in OverCutoff(row, last, k) <==> id in Above(row, last + 1, cutoff) {
      if id <= last { RankTellsSide(row, last, k, cutoff, row[id]); }
    }
  }

  lemma {:induction false} TieFromSets(
      row: seq<nat>, last: nat, k: nat, cutoff: nat, required: nat, tie: Option<TieRow>, at: set<nat>, over: set<nat>)
    requires at == At(row, last + 1, cutoff) && over == Above(row, last + 1, cutoff)
    requires IsRowOracle(row, last + 1, k, cutoff, required, tie)
    ensures IsBoundary(at, over, k, tie)
  {
  }

  lemma {:induction false} CutoffOfOracle(row: seq<nat>, last: nat, k: nat, tie: Option<TieRow>)
    returns (cutoff: nat, required: nat)
    requires CausalScores(row, last + 1) && HasRowOracle(row, last + 1, k, tie)
    ensures IsRowOracle(row, last + 1, k, cutoff, required, tie) && IsCutoff(row, last, k, cutoff)
  {
    cutoff, required :| IsRowOracle(row, last + 1, k, cutoff, required, tie);
    CutoffCounts(row, last + 1, k, cutoff, required);
    CutoffByRank(row, last, k, cutoff);
  }

  lemma {:induction false} OracleKeepsTie(row: seq<nat>, last: nat, k: nat, tie: Option<TieRow>)
    requires CausalScores(row, last + 1) && last >= k && HasRowOracle(row, last + 1, k, tie)
    ensures KeepsTie(row, last, k, tie)
  {
    var cutoff, required := CutoffOfOracle(row, last, k, tie);
    CutoffSets(row, last, k, cutoff);
    TieFromSets(row, last, k, cutoff, required, tie, AtCutoff(row, last, k), OverCutoff(row, last, k));
  }

  ghost predicate AllTiesKept(scores: seq<seq<nat>>, c: Case, ties: map<nat, TieRow>)
    requires c.queryTokens <= c.contextTokens && |scores| == c.queryTokens
  {
    forall r :: 0 <= r < c.queryTokens ==>
      KeepsTie(scores[r], c.contextTokens - c.queryTokens + r, c.topK, if r in ties then Some(ties[r]) else None)
  }

  lemma {:induction false} OracleKeepsTies(scores: seq<seq<nat>>, c: Case, ties: map<nat, TieRow>)
    requires c.Valid() && ShapeMatches(scores, c.queryTokens, c.contextTokens) && ScoresValid(scores, c)
    requires IsOracle(scores, c, ties)
    ensures AllTiesKept(scores, c, ties)
  {
    forall r | 0 <= r < c.queryTokens
      ensures KeepsTie(scores[r], c.contextTokens - c.queryTokens + r, c.topK,
                       if r in ties then Some(ties[r]) else None)
    {
      assert IsRowTie(scores[r], c, r, Lookup(ties, r));
      if Eligible(c, r) {
        OracleKeepsTie(scores[r], c.contextTokens - c.queryTokens + r, c.topK, Lookup(ties, r));
      }
    }
  }

  lemma {:induction false} CutoffOfTop(row: seq<nat>, last: nat, k: nat, values: seq<nat>, picked: seq<nat>)
    requires CausalScores(row, last + 1) && k > 0 && AreTopValues(row, k + 1, values, picked)
    requires IsFiniteKey(values[k - 1])
    ensures IsCutoff(row, last, k, values[k - 1])
    ensures CountAbove(values[..k], values[k - 1]) == |Above(row, last + 1, values[k - 1])|
  {
    TopNumbers(row, last + 1, k, values, picked);
    TopCountsAbove(row, last + 1, k, values, picked);
    CutoffByRank(row, last, k, values[k - 1]);
  }

  lemma {:induction false} BelowFinds(row: seq<nat>, last: nat, k: nat, cutoff: nat, out: seq<int>)
    requires CausalScores(row, last + 1) && last >= k && IsCutoff(row, last, k, cutoff) && cutoff < KEY_SPACE
    requires IsWellFormedRow(out, 0, last + 1, k)
    ensures SelectsBelow(row, out, cutoff) <==> TakesBelow(row, out, last, k)
  {
    SelectsBelowMeans(row, last + 1, k, cutoff, out);
    TakesBelowMeans(row, last, k, cutoff, out);
  }

  lemma {:induction false} AboveFinds(row: seq<nat>, last: nat, k: nat, cutoff: nat, out: seq<int>)
    requires CausalScores(row, last + 1) && last >= k && IsCutoff(row, last, k, cutoff)
    requires IsWellFormedRow(out, 0, last + 1, k)
    ensures CountAbove(GatherScores(row, out), cutoff) != |Above(row, last + 1, cutoff)| <==>
      LeavesAbove(row, out, last, k)
  {
    GreaterCountMeans(row, last + 1, k, cutoff, out);
    LeavesAboveMeans(row, last, k, cutoff, out);
  }

  /** What each of the two vectorized checks finds. */
  lemma {:induction false} ChecksFind(
      row: seq<nat>, last: nat, k: nat, values: seq<nat>, picked: seq<nat>, out: seq<int>)
    requires CausalScores(row, last + 1) && last >= k > 0 && AreTopValues(row, k + 1, values, picked)
    requires IsFiniteKey(values[k - 1]) && IsWellFormedRow(out, 0, last + 1, k)
    ensures SelectsBelow(row, out, values[k - 1]) <==> TakesBelow(row, out, last, k)
    ensures !GreaterCountMatches(row, out, values[..k], values[k - 1]) <==> LeavesAbove(row, out, last, k)
  {
    CutoffOfTop(row, last, k, values, picked);
    BelowFinds(row, last, k, values[k - 1], out);
    AboveFinds(row, last, k, values[k - 1], out);
  }

  ghost predicate RowTakesBelow(row: seq<nat>, out: seq<int>, c: Case, r: nat)
    requires c.queryTokens <= c.contextTokens
  {
    TakesBelow(row, out, c.contextTokens - c.queryTokens + r, c.topK)
  }

  ghost predicate RowLeavesAbove(row: seq<nat>, out: seq<int>, c: Case, r: nat)
    requires c.queryTokens <= c.contextTokens
  {
    LeavesAbove(row, out, c.contextTokens - c.queryTokens + r, c.topK)
  }

  /** What the vectorized checks look at in one row. */
  ghost predicate RowReady(row: seq<nat>, out: seq<int>, c: Case, r: nat, top: seq<nat>, picked: seq<nat>)
    requires c.Valid()
  {
    && CausalScores(row, c.CausalEnd(r)) && IsRowTop(row, c, r, top, picked)
    && IsWellFormedRow(out, 0, c.CausalEnd(r), c.topK) && RowFinite(c, r, top)
  }

  /** The same for a row of the case. */
  lemma {:induction false} RowChecksFind(
      row: seq<nat>, out: seq<int>, c: Case, r: nat, top: seq<nat>, picked: seq<nat>)
    requires c.Valid() && RowReady(row, out, c, r, top, picked)
    ensures RowBelow(row, out, c, r, top) <==> RowTakesBelow(row, out, c, r)
    ensures RowOmits(row, out, c, r, top) <==> RowLeavesAbove(row, out, c, r)
  {
    if Eligible(c, r) {
      ChecksFind(row, c.contextTokens - c.queryTokens + r, c.topK, top, picked, out);
    }
  }

  ghost predicate SomeTakesBelow(scores: seq<seq<nat>>, indices: seq<seq<int>>, c: Case)
    requires c.queryTokens <= c.contextTokens && |scores| == |indices| == c.queryTokens
  {
    exists r {:trigger RowTakesBelow(scores[r], indices[r], c, r)} ::
      0 <= r < c.queryTokens && RowTakesBelow(scores[r], indices[r], c, r)
  }

  ghost predicate SomeLeavesAbove(scores: seq<seq<nat>>, indices: seq<seq<int>>, c: Case)
    requires c.queryTokens <= c.contextTokens && |scores| == |indices| == c.queryTokens
  {
    exists r {:trigger RowLeavesAbove(scores[r], indices[r], c, r)} ::
      0 <= r < c.queryTokens && RowLeavesAbove(scores[r], indices[r], c, r)
  }

  /** The tops and the baseline that the vectorized checks look at. */
  ghost predicate ReadyToCheck(
      scores: seq<seq<nat>>, baseline: seq<seq<int>>, c: Case, tops: seq<seq<nat>>, picks: seq<seq<nat>>)
    requires c.Valid()
  {
    && |scores| == |baseline| == |tops| == |picks| == c.queryTokens
    && forall r {:trigger RowReady(scores[r], baseline[r], c, r, tops[r], picks[r])} ::
         0 <= r < c.queryTokens ==> RowReady(scores[r], baseline[r], c, r, tops[r], picks[r])
  }

  /** The two vectorized checks over all rows. */
  lemma {:induction false} AllBelowFind(
      scores: seq<seq<nat>>, baseline: seq<seq<int>>, c: Case, tops: seq<seq<nat>>, picks: seq<seq<nat>>)
    requires c.Valid() && ReadyToCheck(scores, baseline, c, tops, picks)
    ensures (exists r :: 0 <= r < c.queryTokens && RowBelow(scores[r], baseline[r], c, r, tops[r])) <==>
      SomeTakesBelow(scores, baseline, c)
  {
    if r :| 0 <= r < c.queryTokens && RowBelow(scores[r], baseline[r], c, r, tops[r]) {
      assert RowReady(scores[r], baseline[r], c, r, tops[r], picks[r]);
      RowChecksFind(scores[r], baseline[r], c, r, tops[r], picks[r]);
    }
    if SomeTakesBelow(scores, baseline, c) {
      var r :| 0 <= r < c.queryTokens && RowTakesBelow(scores[r], baseline[r], c, r);
      assert RowReady(scores[r], baseline[r], c, r, tops[r], picks[r]);
      RowChecksFind(scores[r], baseline[r], c, r, tops[r], picks[r]);
    }
  }

  lemma {:induction false} AllOmitsFind(
      scores: seq<seq<nat>>, baseline: seq<seq<int>>, c: Case, tops: seq<seq<nat>>, picks: seq<seq<nat>>)
    requires c.Valid() && ReadyToCheck(scores, baseline, c, tops, picks)
    ensures (exists r :: 0 <= r < c.queryTokens && RowOmits(scores[r], baseline[r], c, r, tops[r])) <==>
      SomeLeavesAbove(scores, baseline, c)
  {
    if r :| 0 <= r < c.queryTokens && RowOmits(scores[r], baseline[r], c, r, tops[r]) {
      assert RowReady(scores[r], baseline[r], c, r, tops[r], picks[r]);
      RowChecksFind(scores[r], baseline[r], c, r, tops[r], picks[r]);
    }
    if SomeLeavesAbove(scores, baseline, c) {
      var r :| 0 <= r < c.queryTokens && RowLeavesAbove(scores[r], baseline[r], c, r);
      assert RowReady(scores[r], baseline[r], c, r, tops[r], picks[r]);
      RowChecksFind(scores[r], baseline[r], c, r, tops[r], picks[r]);
    }
  }

  /** The vectorized checks of a well-formed baseline, then the tie loop. */
  method CheckBaseline(scores: seq<seq<nat>>, baseline: seq<seq<int>>, c: Case)
    returns (result: Result<map<nat, TieRow>, OracleError>)
    requires c.Valid() && ShapeMatches(scores, c.queryTokens, c.contextTokens) && ScoresValid(scores, c)
    requires WellFormed(baseline, c)
    ensures result.Ok? <==> FiniteCutoffs(scores, c) && AllExact(scores, baseline, c)
    ensures result.Ok? ==> IsOracle(scores, c, result.value)
    ensures result == Err(NonFiniteCutoff) <==> !FiniteCutoffs(scores, c)
    ensures result == Err(BelowCutoff) <==> FiniteCutoffs(scores, c) && SomeTakesBelow(scores, baseline, c)
    ensures result == Err(OmittedAbove) <==>
      FiniteCutoffs(scores, c) && !SomeTakesBelow(scores, baseline, c) && SomeLeavesAbove(scores, baseline, c)
    ensures result.Err? ==> result.error in {NonFiniteCutoff, BelowCutoff, OmittedAbove}
  {
    var tops, picks := AllTopValues(scores, c);
    forall r | 0 <= r < c.queryTokens
      ensures RowFinite(c, r, tops[r]) <==> RowCutoffFinite(scores[r], c, r)
      ensures RowFinite(c, r, tops[r]) ==>
        !RowNotMonotone(c, r, tops[r]) &&
        (RowExact(scores[r], baseline[r], c, r) <==>
         !RowBelow(scores[r], baseline[r], c, r, tops[r]) && !RowOmits(scores[r], baseline[r], c, r, tops[r]))
    {
      RowFacts(scores[r], baseline[r], c, r, tops[r], picks[r]);
    }
    if exists r :: 0 <= r < c.queryTokens && !RowFinite(c, r, tops[r]) { return Err(NonFiniteCutoff); }
    assert ReadyToCheck(scores, baseline, c, tops, picks);
    AllBelowFind(scores, baseline, c, tops, picks);
    AllOmitsFind(scores, baseline, c, tops, picks);
    var notMonotone := exists r :: 0 <= r < c.queryTokens && RowNotMonotone(c, r, tops[r]);
    if exists r :: 0 <= r < c.queryTokens && RowBelow(scores[r], baseline[r], c, r, tops[r]) {
      return Err(BelowCutoff);
    }
    if exists r :: 0 <= r < c.queryTokens && RowOmits(scores[r], baseline[r], c, r, tops[r]) {
      return Err(OmittedAbove);
    }
    var ties, defect := CollectTies(scores, baseline, c, tops, picks);
    return Conclude(FirstError(if notMonotone then Some(NotMonotone) else None, defect), ties);
  }

  /** Accepts a baseline exactly when it is well-formed, its cutoffs are finite and each of
      its rows is an exact Top-K; the oracle then keeps exactly the tied rows' boundaries.
      The checks behind the first five never find anything. */
  method BuildScoreThresholdOracle(scores: seq<seq<nat>>, baseline: seq<seq<int>>, c: Case)
    returns (result: Result<map<nat, TieRow>, OracleError>)
    requires c.Valid() && SentinelUnused(c) && ScoresValid(scores, c)
    ensures result.Ok? <==>
      ShapeMatches(scores, c.queryTokens, c.contextTokens) && TensorAccepts(baseline, c) &&
      FiniteCutoffs(scores, c) && AllExact(scores, baseline, c)
    ensures result.Ok? <==>
      ShapeMatches(scores, c.queryTokens, c.contextTokens) && AllCutoffsFinite(scores, c) &&
      AllTakeBest(scores, baseline, c)
    ensures result.Ok? ==> IsOracle(scores, c, result.value) && AllTiesKept(scores, c, result.value)
    ensures result == Err(ScoreShape) <==> !ShapeMatches(scores, c.queryTokens, c.contextTokens)
    ensures result == Err(BaselineRejected) <==>
      ShapeMatches(scores, c.queryTokens, c.contextTokens) && !AllListed(baseline, c)
    ensures result == Err(NonFiniteCutoff) <==>
      ShapeMatches(scores, c.queryTokens, c.contextTokens) && AllListed(baseline, c) && !AllCutoffsFinite(scores, c)
    ensures result == Err(BelowCutoff) <==>
      && ShapeMatches(scores, c.queryTokens, c.contextTokens) && AllListed(baseline, c) && AllCutoffsFinite(scores, c)
      && SomeTakesBelow(scores, baseline, c)
    ensures result == Err(OmittedAbove) <==>
      && ShapeMatches(scores, c.queryTokens, c.contextTokens) && AllListed(baseline, c) && AllCutoffsFinite(scores, c)
      && !SomeTakesBelow(scores, baseline, c) && SomeLeavesAbove(scores, baseline, c)
    ensures result.Err? ==> result.error in {ScoreShape, BaselineRejected, NonFiniteCutoff, BelowCutoff, OmittedAbove}
  {
    if !ShapeMatches(scores, c.queryTokens, c.contextTokens) { return Err(ScoreShape); }
    AgreeWhenUnused(baseline, c);
    AllWellFormedLists(baseline, c);
    AllExactTakeBest(scores, baseline, c);
    AllCutoffsFiniteMeans(scores, c);
    if !TensorAccepts(baseline, c) {
      return Err(BaselineRejected);
    }
    result := CheckBaseline(scores, baseline, c);
    if result.Ok? { OracleKeepsTies(scores, c, result.value); }
  }

  // ---------- comparing a candidate ----------

  /** A differing row keeps every ID above the cutoff and swaps only among tied ones. */
  predicate TiedRowAccepted(actual: set<int>, expected: set<int>, tie: TieRow) {
    var mandatory := expected - tie.boundary;
    mandatory - actual == {} && actual - mandatory - tie.boundary == {} && |actual * tie.boundary| == tie.required
  }

  predicate RowAgrees(actual: set<int>, expected: set<int>, tie: Option<TieRow>) {
    actual == expected || (tie.Some? && TiedRowAccepted(actual, expected, tie.value))
  }

  datatype CompareError = CandidateInvalid | BaselineInvalid | RowDiffers(row: nat) | NotThresholdTopK(row: nat)

  ghost predicate Accepted(indices: seq<seq<int>>, c: Case, tensors: bool)
    requires c.Valid()
  {
    if tensors then TensorAccepts(indices, c) else WellFormed(indices, c)
  }

  method Validate(indices: seq<seq<int>>, c: Case, tensors: bool) returns (ok: bool)
    requires c.Valid()
    ensures ok <==> Accepted(indices, c, tensors)
  {
    if tensors {
      ok := TensorAccepts(indices, c);
    } else {
      var sets := ValidatedSets(indices, c);
      ok := sets.Ok?;
    }
  }

  /** Whether a row needs a closer look: the tensors compare sorted rows, the lists sets. */
  predicate Differs(actual: seq<int>, expected: seq<int>, tensors: bool) {
    if tensors then Sort(Normalize(actual)) != Sort(Normalize(expected))
      else SelectedIds(actual) != SelectedIds(expected)
  }

  /** One row of the comparison. */
  method CompareRow(
      actual: seq<int>, expected: seq<int>, ghost end: nat, ghost k: nat, tie: Option<TieRow>, tensors: bool)
    returns (ok: bool, differs: bool)
    requires IsWellFormedRow(actual, 0, end, k) && IsWellFormedRow(expected, 0, end, k)
    ensures ok <==> RowAgrees(SelectedIds(actual), SelectedIds(expected), tie)
    ensures differs <==> SelectedIds(actual) != SelectedIds(expected)
  {
    SortedComparison(actual, expected, end, k);
    differs := Differs(actual, expected, tensors);
    ok := !differs || (tie.Some? && TiedRowAccepted(SelectedIds(actual), SelectedIds(expected), tie.value));
  }

  /** A row of the candidate stands up to the baseline's: it takes the same IDs, or differs
      only in which of the recorded boundary IDs it takes, and takes as many as required. */
  ghost predicate RowPasses(candidate: seq<seq<int>>, baseline: seq<seq<int>>, ties: map<nat, TieRow>, r: nat)
    requires r < |candidate| && r < |baseline|
  {
    var taken, expected := set v | v in candidate[r] && v != -1, set v | v in baseline[r] && v != -1;
    taken == expected ||
    (r in ties && (forall v :: v !in ties[r].boundary ==> (v in taken <==> v in expected)) &&
     |set v | v in taken && v in ties[r].boundary| == ties[r].required)
  }

  lemma {:induction false} AgreeingMeans(
      candidate: seq<seq<int>>, baseline: seq<seq<int>>, ties: map<nat, TieRow>, r: nat)
    requires r < |candidate| && r < |baseline|
    ensures RowPasses(candidate, baseline, ties, r) <==>
      RowAgrees(SelectedIds(candidate[r]), SelectedIds(baseline[r]), Lookup(ties, r))
  {
    var taken, expected := SelectedIds(candidate[r]), SelectedIds(baseline[r]);
    assert taken == set v | v in candidate[r] && v != -1;
    assert expected == set v | v in baseline[r] && v != -1;
    if r in ties {
      var boundary := ties[r].boundary;
      var mandatory := expected - boundary;
      assert taken * boundary == set v | v in taken && v in boundary;
      assert TiedRowAccepted(taken, expected, ties[r]) <==>
        mandatory - taken == {} && taken - mandatory - boundary == {} && |taken * boundary| == ties[r].required;
      if mandatory - taken == {} && taken - mandatory - boundary == {} {
        forall v | v !in boundary ensures v in taken <==> v in expected {
          assert v in mandatory <==> v in expected;
          assert v in mandatory && v !in taken ==> v in mandatory - taken;
          assert v in taken && v !in mandatory ==> v in taken - mandatory - boundary;
        }
      }
    }
  }

  /** The two outputs select different IDs in a row. */
  ghost predicate RowsDiffer(candidate: seq<seq<int>>, baseline: seq<seq<int>>, r: nat)
    requires r < |candidate| && r < |baseline|
  {
    (set v | v in candidate[r] && v != -1) != (set v | v in baseline[r] && v != -1)
  }

  method CompareAt(
      candidate: seq<seq<int>>, baseline: seq<seq<int>>, c: Case, ties: map<nat, TieRow>, tensors: bool, r: nat)
    returns (ok: bool, differs: bool)
    requires c.Valid() && WellFormed(candidate, c) && WellFormed(baseline, c) && r < c.queryTokens
    ensures ok <==> RowPasses(candidate, baseline, ties, r)
    ensures differs <==> RowsDiffer(candidate, baseline, r)
  {
    AgreeingMeans(candidate, baseline, ties, r);
    ok, differs := CompareRow(candidate[r], baseline[r], c.CausalEnd(r), c.topK, Lookup(ties, r), tensors);
  }

  /** The row loop over two well-formed outputs. */
  method CompareRows(
      candidate: seq<seq<int>>, baseline: seq<seq<int>>, c: Case, ties: map<nat, TieRow>, tensors: bool)
    returns (result: Result<set<nat>, CompareError>)
    requires c.Valid() && WellFormed(candidate, c) && WellFormed(baseline, c)
    ensures result.Ok? <==> forall r :: 0 <= r < c.queryTokens ==> RowPasses(candidate, baseline, ties, r)
    ensures result.Ok? ==> forall r :: r in result.value <==>
      0 <= r < c.queryTokens && RowsDiffer(candidate, baseline, r)
    ensures result.Err? ==> result.error.RowDiffers? || result.error.NotThresholdTopK?
    ensures result.Err? ==>
      var row := result.error.row;
      && row < c.queryTokens == |candidate| == |baseline| && !RowPasses(candidate, baseline, ties, row)
      && (result.error.RowDiffers? <==> row !in ties)
      && forall r :: 0 <= r < row ==> RowPasses(candidate, baseline, ties, r)
  {
    var substituted: set<nat> := {};
    for r := 0 to c.queryTokens
      invariant forall q :: 0 <= q < r ==> RowPasses(candidate, baseline, ties, q)
      invariant forall q :: q in substituted <==> 0 <= q < r && RowsDiffer(candidate, baseline, q)
    {
      var ok, differs := CompareAt(candidate, baseline, c, ties, tensors, r);
      if !ok { return Err(if r !in ties then RowDiffers(r) else NotThresholdTopK(r)); }
      if differs { substituted := substituted + {r}; }
    }
    return Ok(substituted);
  }

  method CompareTopKIndices(
      candidate: seq<seq<int>>, baseline: seq<seq<int>>, c: Case, ties: map<nat, TieRow>, tensors: bool)
    returns (result: Result<set<nat>, CompareError>)
    requires c.Valid() && (tensors ==> SentinelUnused(c))
    ensures result.Ok? <==>
      AllListed(candidate, c) && AllListed(baseline, c) &&
      forall r :: 0 <= r < c.queryTokens ==> RowPasses(candidate, baseline, ties, r)
    ensures result.Ok? ==> forall r :: r in result.value <==>
      0 <= r < c.queryTokens && RowsDiffer(candidate, baseline, r)
    ensures result == Err(CandidateInvalid) <==> !AllListed(candidate, c)
    ensures result == Err(BaselineInvalid) <==> AllListed(candidate, c) && !AllListed(baseline, c)
    ensures result.Err? && (result.error.RowDiffers? || result.error.NotThresholdTopK?) ==>
      var row := result.error.row;
      && row < c.queryTokens == |candidate| == |baseline| && !RowPasses(candidate, baseline, ties, row)
      && (result.error.RowDiffers? <==> row !in ties)
      && forall r :: 0 <= r < row ==> RowPasses(candidate, baseline, ties, r)
  {
    if tensors {
      AgreeWhenUnused(candidate, c);
      AgreeWhenUnused(baseline, c);
    }
    AllWellFormedLists(candidate, c);
    AllWellFormedLists(baseline, c);
    var candidateOk := Validate(candidate, c, tensors);
    if !candidateOk { return Err(CandidateInvalid); }
    var baselineOk := Validate(baseline, c, tensors);
    if !baselineOk { return Err(BaselineInvalid); }
    result := CompareRows(candidate, baseline, c, ties, tensors);
  }

  /** With a tied cutoff, the substitution rule is exactly lying between the mandatory IDs
      and the boundary. */
  lemma SubstitutionRule(above: set<nat>, at: set<nat>, required: nat, expected: set<int>, actual: set<int>)
    requires above !! at && |actual| == |above| + required
    requires above <= expected <= above + at
    ensures TiedRowAccepted(actual, expected, TieRow(at, required, |above|)) <==> above <= actual <= above + at
  {
    assert expected - at == above;
    if above <= actual <= above + at {
      assert actual == above + actual * at;
      assert |actual| == |above| + |actual * at|;
    }
  }

  /** Without a tie there is only one exact set. */
  lemma UntiedIsUnique(above: set<nat>, at: set<nat>, expected: set<int>, actual: set<int>)
    requires above !! at && |actual| == |expected| == |above| + |at|
    requires above <= expected <= above + at
    ensures actual == expected <==> above <= actual <= above + at
  {
    assert |above + at| == |above| + |at|;
    SubsetCardinality<int>(expected, above + at);
    if above <= actual <= above + at { SubsetCardinality<int>(actual, above + at); }
  }

  lemma TiedRowMeansExact(
      row: seq<nat>, end: nat, k: nat, cutoff: nat, required: nat, tie: Option<TieRow>, expected: seq<int>,
      actual: seq<int>)
    requires CausalScores(row, end) && end > k && IsRowOracle(row, end, k, cutoff, required, tie)
    requires IsExactRow(RowKey(row), expected, 0, end, k) && IsWellFormedRow(actual, 0, end, k)
    ensures RowAgrees(SelectedIds(actual), SelectedIds(expected), tie) <==> IsExactRow(RowKey(row), actual, 0, end, k)
  {
    var above, at := Above(row, end, cutoff), At(row, end, cutoff);
    ExactMeansBetween(row, end, k, cutoff, required, expected);
    ExactMeansBetween(row, end, k, cutoff, required, actual);
    assert above !! at;
    if tie.Some? {
      SubstitutionRule(above, at, required, SelectedIds(expected), SelectedIds(actual));
    } else {
      UntiedIsUnique(above, at, SelectedIds(expected), SelectedIds(actual));
    }
  }

  /** Against an accepted baseline the row comparison decides exactness, for tied, untied and
      short rows alike. */
  lemma ComparisonDecidesExactness(
      scores: seq<seq<nat>>, baseline: seq<seq<int>>, candidate: seq<seq<int>>, c: Case, ties: map<nat, TieRow>)
    requires c.Valid() && ShapeMatches(scores, c.queryTokens, c.contextTokens) && ScoresValid(scores, c)
    requires AllExact(scores, baseline, c) && IsOracle(scores, c, ties) && WellFormed(candidate, c)
    ensures forall r :: 0 <= r < c.queryTokens ==>
      (RowPasses(candidate, baseline, ties, r) <==> RowExact(scores[r], candidate[r], c, r))
  {
    forall r | 0 <= r < c.queryTokens
      ensures RowPasses(candidate, baseline, ties, r) <==> RowExact(scores[r], candidate[r], c, r)
    {
      var end := c.CausalEnd(r);
      assert IsRowTie(scores[r], c, r, Lookup(ties, r)) && RowExact(scores[r], baseline[r], c, r);
      AgreeingMeans(candidate, baseline, ties, r);
      if Eligible(c, r) {
        var cutoff: nat, required: nat :| IsRowOracle(scores[r], end, c.topK, cutoff, required, Lookup(ties, r));
        TiedRowMeansExact(scores[r], end, c.topK, cutoff, required, Lookup(ties, r), baseline[r], candidate[r]);
      } else {
        ShortRowsTakeAll(RowKey(scores[r]), baseline[r], end, c.topK);
        ShortRowsTakeAll(RowKey(scores[r]), candidate[r], end, c.topK);
      }
    }
  }

  /** Build the oracle and judge a candidate with it. Once the oracle has accepted the
      baseline, the candidate passes exactly when each of its rows is an exact Top-K. */
  method JudgeCandidate(
      scores: seq<seq<nat>>, baseline: seq<seq<int>>, candidate: seq<seq<int>>, c: Case, tensors: bool)
    returns (oracleBuilt: bool, passed: bool)
    requires c.Valid() && SentinelUnused(c) && ScoresValid(scores, c)
    ensures oracleBuilt <==>
      ShapeMatches(scores, c.queryTokens, c.contextTokens) && TensorAccepts(baseline, c) &&
      FiniteCutoffs(scores, c) && AllExact(scores, baseline, c)
    ensures oracleBuilt ==> (passed <==> AllExact(scores, candidate, c))
    ensures !oracleBuilt ==> !passed
    ensures oracleBuilt <==>
      ShapeMatches(scores, c.queryTokens, c.contextTokens) && AllCutoffsFinite(scores, c) &&
      AllTakeBest(scores, baseline, c)
    ensures oracleBuilt ==> (passed <==> AllTakeBest(scores, candidate, c))
  {
    var oracle := BuildScoreThresholdOracle(scores, baseline, c);
    if oracle.Err? { return false, false; }
    AgreeWhenUnused(baseline, c);
    AllWellFormedLists(candidate, c);
    AllWellFormedLists(baseline, c);
    AllExactTakeBest(scores, candidate, c);
    var verdict := CompareTopKIndices(candidate, baseline, c, oracle.value, tensors);
    if WellFormed(candidate, c) {
      ComparisonDecidesExactness(scores, baseline, candidate, c, oracle.value);
    }
    return true, verdict.Ok?;
  }
}
