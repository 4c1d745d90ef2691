/** The output contract and its two validators: the list path, which walks the rows, and
    the tensor path, which sorts them. */
module OutputValidation {
  import opened Arithmetic
  import opened Exactness
  import opened Outcomes
  import opened TensorOps

  /** A causal prefill case: row r may select from [0, CausalEnd(r)). */
  datatype Case = Case(queryTokens: nat, contextTokens: nat, topK: nat) {
    ghost predicate Valid() {
      queryTokens <= contextTokens && topK > 0
    }

    function CausalEnd(row: nat): nat
      requires queryTokens <= contextTokens
    {
      contextTokens - queryTokens + row + 1
    }
  }

  predicate ShapeMatches<T>(indices: seq<seq<T>>, rows: nat, width: nat) {
    |indices| == rows && forall r :: 0 <= r < rows ==> |indices[r]| == width
  }

  /** Every row lists distinct causal IDs, as many as it can, and pads with -1. */
  ghost predicate WellFormed(indices: seq<seq<int>>, c: Case)
    requires c.Valid()
  {
    && ShapeMatches(indices, c.queryTokens, c.topK)
    && forall r :: 0 <= r < c.queryTokens ==> IsWellFormedRow(indices[r], 0, c.CausalEnd(r), c.topK)
  }

  /** What the contract asks of a row whose own position is `last`, in its entries: distinct
      positions up to its own, as many as it can hold, and -1 otherwise. */
  ghost predicate ListsPositions(row: seq<int>, last: nat, k: nat) {
    && |row| == k
    && (forall v :: v in row ==> v == -1 || 0 <= v <= last)
    && (forall i, j :: 0 <= i < j < |row| && row[i] == row[j] ==> row[i] == -1)
    && |set v | v in row && v != -1| == Min(k, last + 1)
  }

  /** Being well-formed means that. */
  lemma {:induction false} WellFormedLists(row: seq<int>, last: nat, k: nat)
    ensures IsWellFormedRow(row, 0, last + 1, k) <==> ListsPositions(row, last, k)
  {
    SelectedCardinality(row);
    RepeatedPlaces(row);
    assert SelectedIds(row) == set v | v in row && v != -1;
    assert Repeated(row) <==> !forall i, j :: 0 <= i < j < |row| && row[i] == row[j] ==> row[i] == -1;
    forall v ensures v in SelectedIds(row) <==> v in row && v != -1 {
    }
  }

  ghost predicate AllListed(indices: seq<seq<int>>, c: Case)
    requires c.queryTokens <= c.contextTokens
  {
    |indices| == c.queryTokens &&
    forall r :: 0 <= r < c.queryTokens ==> ListsPositions(indices[r], c.contextTokens - c.queryTokens + r, c.topK)
  }

  lemma {:induction false} AllWellFormedLists(indices: seq<seq<int>>, c: Case)
    requires c.Valid()
    ensures WellFormed(indices, c) <==> AllListed(indices, c)
  {
    if WellFormed(indices, c) {
      forall r | 0 <= r < c.queryTokens
        ensures ListsPositions(indices[r], c.contextTokens - c.queryTokens + r, c.topK)
      {
        WellFormedLists(indices[r], c.contextTokens - c.queryTokens + r, c.topK);
        assert IsWellFormedRow(indices[r], 0, c.CausalEnd(r), c.topK);
      }
      assert AllListed(indices, c);
    }
    if AllListed(indices, c) {
      forall r | 0 <= r < c.queryTokens
        ensures |indices[r]| == c.topK && IsWellFormedRow(indices[r], 0, c.CausalEnd(r), c.topK)
      {
        WellFormedLists(indices[r], c.contextTokens - c.queryTokens + r, c.topK);
        assert ListsPositions(indices[r], c.contextTokens - c.queryTokens + r, c.topK);
      }
      assert WellFormed(indices, c);
    }
  }

  // ---------- the list path ----------

  datatype RowFault = InvalidSentinel | WrongCount | OutOfRange | DuplicateIds

  datatype Rejection = ShapeRejected | RowRejected(row: nat, fault: RowFault)

  /** The places of a row that hold an ID. */
  ghost function Places(row: seq<int>): set<nat> {
    set j: nat | j < |row| && row[j] != -1
  }

  /** What is wrong with a row, earlier checks first. */
  ghost predicate Explains(fault: RowFault, row: seq<int>, end: nat, k: nat) {
    match fault
    case InvalidSentinel => exists v :: v in row && v < -1
    case WrongCount => (forall v :: v in row ==> v >= -1) && |Places(row)| != Min(k, end)
    case OutOfRange =>
      (forall v :: v in row ==> v >= -1) && |Places(row)| == Min(k, end) && exists v :: v in row && v >= end
    case DuplicateIds =>
      && (forall v :: v in row ==> -1 <= v < end) && |Places(row)| == Min(k, end)
      && exists i, j :: 0 <= i < j < |row| && row[i] == row[j] && row[i] != -1
  }

  lemma {:induction false} CountSelectedIsPlaces(row: seq<int>)
    ensures CountSelected(row) == |Places(row)|
  {
    if row != [] {
      var front := row[..|row| - 1];
      CountSelectedIsPlaces(front);
      assert Places(row) == Places(front) + if row[|row| - 1] != -1 then {|row| - 1} else {};
    }
  }

  /** Two places with the same ID mean that it occurs twice. */
  lemma {:induction false} RepeatedPlaces(row: seq<int>)
    ensures Repeated(row) <==> exists i, j :: 0 <= i < j < |row| && row[i] == row[j] && row[i] != -1
  {
    if i, j :| 0 <= i < j < |row| && row[i] == row[j] && row[i] != -1 {
      RepeatsAt(row, i, j);
    }
    if Repeated(row) {
      var x :| x != -1 && Repeats(row, x);
      MultiplicityBound(row, x);
    }
  }

  lemma {:induction false} RepeatsAt(s: seq<int>, i: nat, j: nat)
    requires i < j < |s| && s[i] == s[j]
    ensures Repeats(s, s[i])
  {
    FrontAndLast(s);
    var front := s[..|s| - 1];
    if j < |front| {
      RepeatsAt(front, i, j);
    } else {
      assert front[i] in multiset(front);
    }
  }

  /** Some ID other than the padding occurs twice. */
  ghost predicate Repeated(row: seq<int>) {
    exists x :: x != -1 && Repeats(row, x)
  }

  lemma {:induction false} SelectedCardinality(row: seq<int>)
    ensures |SelectedIds(row)| <= CountSelected(row)
    ensures |SelectedIds(row)| == CountSelected(row) <==> !Repeated(row)
  {
    if row == [] {
      assert SelectedIds(row) == {};
    } else {
      var front, last := row[..|row| - 1], row[|row| - 1];
      SelectedCardinality(front);
      FrontAndLast(row);
      assert SelectedIds(row) == SelectedIds(front) + if last != -1 then {last} else {};
      assert last in multiset(front) <==> last in front;
      if Repeated(front) {
        var x :| x != -1 && Repeats(front, x);
        assert Repeats(row, x);
      } else if last != -1 && last in front {
        assert Repeats(row, last);
      } else {
        forall x | x != -1 ensures !Repeats(row, x) {
          assert !Repeats(front, x);
        }
      }
    }
  }

  /** The row checks of the list path, in its order. */
  method CheckRow(row: seq<int>, end: nat, k: nat) returns (result: Result<set<int>, RowFault>)
    requires |row| == k
    ensures result.Ok? <==> IsWellFormedRow(row, 0, end, k)
    ensures result.Ok? ==> result.value == SelectedIds(row)
    ensures result.Err? ==> Explains(result.error, row, end, k)
  {
    SelectedCardinality(row);
    CountSelectedIsPlaces(row);
    RepeatedPlaces(row);
    if exists v :: v in row && v < 0 && v != -1 {
      ghost var v :| v in row && v < 0 && v != -1;
      assert v in SelectedIds(row);
      return Err(InvalidSentinel);
    }
    if CountSelected(row) != Min(k, end) { return Err(WrongCount); }
    if exists v :: v in row && v != -1 && v >= end {
      ghost var v :| v in row && v != -1 && v >= end;
      assert v in SelectedIds(row);
      return Err(OutOfRange);
    }
    var selected := SelectedIds(row);
    if |selected| != CountSelected(row) { return Err(DuplicateIds); }
    return Ok(selected);
  }

  /** Accepts exactly the well-formed outputs and returns their ID sets; otherwise names the
      first offending row and its first fault. */
  method ValidatedSets(indices: seq<seq<int>>, c: Case) returns (result: Result<seq<set<int>>, Rejection>)
    requires c.Valid()
    ensures result.Ok? <==> WellFormed(indices, c)
    ensures result.Ok? <==>
      |indices| == c.queryTokens &&
      forall r :: 0 <= r < c.queryTokens ==> ListsPositions(indices[r], c.contextTokens - c.queryTokens + r, c.topK)
    ensures result.Ok? ==>
      |result.value| == c.queryTokens && forall r :: 0 <= r < c.queryTokens ==>
        result.value[r] == set v | v in indices[r] && v != -1
    ensures result == Err(ShapeRejected) <==>
      |indices| != c.queryTokens || exists r :: 0 <= r < c.queryTokens && |indices[r]| != c.topK
    ensures result.Err? && result.error.RowRejected? ==>
      var row := result.error.row;
      && row < c.queryTokens == |indices|
      && Explains(result.error.fault, indices[row], c.contextTokens - c.queryTokens + row + 1, c.topK)
      && forall r :: 0 <= r < row ==> ListsPositions(indices[r], c.contextTokens - c.queryTokens + r, c.topK)
  {
    AllWellFormedLists(indices, c);
    if !ShapeMatches(indices, c.queryTokens, c.topK) { return Err(ShapeRejected); }
    var sets: seq<set<int>> := [];
    for r := 0 to c.queryTokens
      invariant |sets| == r && forall q :: 0 <= q < r ==> sets[q] == SelectedIds(indices[q])
      invariant forall q :: 0 <= q < r ==> IsWellFormedRow(indices[q], 0, c.CausalEnd(q), c.topK)
      invariant forall q :: 0 <= q < r ==> ListsPositions(indices[q], c.contextTokens - c.queryTokens + q, c.topK)
    {
      WellFormedLists(indices[r], c.contextTokens - c.queryTokens + r, c.topK);
      var checked := CheckRow(indices[r], c.CausalEnd(r), c.topK);
      if checked.Err? { return Err(RowRejected(r, checked.error)); }
      sets := sets + [checked.value];
    }
    return Ok(sets);
  }

  // ---------- the tensor path ----------

  /** The largest 32-bit signed integer stands in for padding before sorting. */
  const SENTINEL: nat := 0x7FFF_FFFF

  function Normalize(row: seq<int>): (normalized: seq<int>)
    ensures |normalized| == |row|
  {
    seq(|row|, j requires 0 <= j < |row| => if row[j] >= 0 then row[j] else SENTINEL)
  }

  function CountNonNegative(row: seq<int>): nat {
    if row == [] then 0
    else CountNonNegative(row[..|row| - 1]) + if row[|row| - 1] >= 0 then 1 else 0
  }

  predicate AdjacentDuplicates(ordered: seq<int>) {
    exists j :: 0 < j < |ordered| && ordered[j] == ordered[j - 1] && ordered[j] != SENTINEL
  }

  predicate TensorRowAccepted(row: seq<int>, end: nat, k: nat) {
    && (forall v :: v in row ==> !(v < -1))
    && CountNonNegative(row) == Min(k, end)
    && (forall v :: v in row ==> !(v >= 0 && v >= end))
    && !AdjacentDuplicates(Sort(Normalize(row)))
  }

  /** All rows pass each vectorized check. */
  predicate TensorAccepts(indices: seq<seq<int>>, c: Case)
    requires c.queryTokens <= c.contextTokens
  {
    && ShapeMatches(indices, c.queryTokens, c.topK)
    && forall r :: 0 <= r < c.queryTokens ==> TensorRowAccepted(indices[r], c.CausalEnd(r), c.topK)
  }

  /** Normalizing moves the negative entries onto the sentinel and keeps all others. */
  lemma {:induction false} NormalizedContents(row: seq<int>, x: int)
    requires forall v :: v in row ==> v >= -1
    ensures multiset(Normalize(row))[x] ==
      if x < 0 then 0 else multiset(row)[x] + if x == SENTINEL then multiset(row)[-1] else 0
  {
    if row != [] {
      var front, last := row[..|row| - 1], row[|row| - 1];
      FrontAndLast(row);
      assert last in row;
      assert Normalize(row) == Normalize(front) + [if last >= 0 then last else SENTINEL];
      NormalizedContents(front, x);
    } else {
      assert Normalize(row) == [];
    }
  }

  lemma {:induction false} Counting(row: seq<int>)
    ensures CountSelected(row) == |row| - multiset(row)[-1]
    ensures (forall v :: v in row ==> v >= -1) ==> CountNonNegative(row) == CountSelected(row)
  {
    if row != [] {
      var front, last := row[..|row| - 1], row[|row| - 1];
      FrontAndLast(row);
      assert last in row;
      Counting(front);
    }
  }

  lemma AdjacentMeansRepeated(row: seq<int>)
    requires forall v :: v in row ==> v >= -1
    ensures AdjacentDuplicates(Sort(Normalize(row))) <==> exists x :: x >= 0 && x != SENTINEL && Repeats(row, x)
  {
    var normalized := Normalize(row);
    var ordered := Sort(normalized);
    if AdjacentDuplicates(ordered) {
      var j :| 0 < j < |ordered| && ordered[j] == ordered[j - 1] && ordered[j] != SENTINEL;
      assert AdjacentRepeat(ordered, ordered[j]);
      SortedRepeatsAreAdjacent(normalized, ordered[j]);
      NormalizedContents(row, ordered[j]);
      assert Repeats(row, ordered[j]);
    }
    if x :| x >= 0 && x != SENTINEL && Repeats(row, x) {
      NormalizedContents(row, x);
      SortedRepeatsAreAdjacent(normalized, x);
    }
  }

  /** The tensor checks accept a row exactly when it is well-formed, except that copies of
      the sentinel itself go unnoticed. */
  lemma TensorRowMeaning(row: seq<int>, end: nat, k: nat)
    requires |row| == k
    ensures IsWellFormedRow(row, 0, end, k) <==> TensorRowAccepted(row, end, k) && !Repeats(row, SENTINEL)
  {
    Counting(row);
    SelectedCardinality(row);
    assert forall v :: v in SelectedIds(row) <==> v in row && v != -1;
    if forall v :: v in row ==> v >= -1 {
      AdjacentMeansRepeated(row);
      forall x | Repeats(row, x) ensures x in row {
        assert x in multiset(row);
      }
    } else {
      var v :| v in row && v < -1;
      assert v in SelectedIds(row);
    }
  }

  /** No row can hold the sentinel as an ID twice. */
  predicate SentinelUnused(c: Case) {
    c.contextTokens <= SENTINEL || c.topK < 2 || c.queryTokens == 0
  }

  lemma {:induction false} MultiplicityBound(row: seq<int>, x: int)
    ensures multiset(row)[x] <= |row|
    ensures (forall i, j :: 0 <= i < j < |row| && row[i] == row[j] ==> row[i] != x) ==> multiset(row)[x] <= 1
  {
    if row != [] {
      var front, last := row[..|row| - 1], row[|row| - 1];
      FrontAndLast(row);
      MultiplicityBound(front, x);
      if last == x && x in multiset(front) {
        var i :| 0 <= i < |front| && front[i] == x;
        assert row[i] == row[|row| - 1] == x;
      }
    }
  }

  lemma AgreeWhenUnused(indices: seq<seq<int>>, c: Case)
    requires c.Valid() && SentinelUnused(c)
    ensures TensorAccepts(indices, c) <==> WellFormed(indices, c)
  {
    if ShapeMatches(indices, c.queryTokens, c.topK) {
      forall r | 0 <= r < c.queryTokens
        ensures TensorRowAccepted(indices[r], c.CausalEnd(r), c.topK) <==>
          IsWellFormedRow(indices[r], 0, c.CausalEnd(r), c.topK)
      {
        TensorRowMeaning(indices[r], c.CausalEnd(r), c.topK);
        MultiplicityBound(indices[r], SENTINEL);
        if Repeats(indices[r], SENTINEL) {
          assert SENTINEL in multiset(indices[r]);
          assert SENTINEL in indices[r];
        }
      }
    }
  }

  /** The well-formed row 0, 1, 2, .. padded with -1. */
  function FirstIds(end: nat, k: nat): seq<int> {
    seq(k, j => if j < end then j else -1)
  }

  lemma FirstIdsWellFormed(end: nat, k: nat)
    ensures IsWellFormedRow(FirstIds(end, k), 0, end, k)
  {
    var row := FirstIds(end, k);
    var head, tail := row[..Min(k, end)], row[Min(k, end)..];
    assert row == head + tail;
    CountSelectedConcat(head, tail);
    AllSelected(head);
    NoneSelected(tail);
    SelectedCardinality(row);
    forall x | x != -1 ensures !Repeats(row, x) {
      MultiplicityBound(row, x);
    }
  }

  /** A row in range with the right padding passes when it repeats nothing but the sentinel. */
  lemma PassesUnlessRepeated(row: seq<int>, end: nat, k: nat)
    requires |row| == k && forall v :: v in row ==> -1 <= v < end
    requires k - multiset(row)[-1] == Min(k, end)
    requires forall x :: x >= 0 && x != SENTINEL ==> !Repeats(row, x)
    ensures TensorRowAccepted(row, end, k)
  {
    Counting(row);
    AdjacentMeansRepeated(row);
  }

  /** The row whose first two places hold the sentinel. */
  function Doubled(row: seq<int>): (doubled: seq<int>)
    requires |row| >= 2
    ensures |doubled| == |row|
  {
    [SENTINEL, SENTINEL] + row[2..]
  }

  lemma DoubledContents(row: seq<int>, x: int)
    requires |row| >= 2 && row[0] != -1 && row[1] != -1
    ensures x != SENTINEL ==> multiset(Doubled(row))[x] <= multiset(row)[x]
    ensures multiset(Doubled(row))[-1] == multiset(row)[-1] && multiset(Doubled(row))[SENTINEL] >= 2
  {
    assert row == [row[0], row[1]] + row[2..];
    assert multiset(row) == multiset{row[0], row[1]} + multiset(row[2..]);
    assert multiset(Doubled(row)) == multiset{SENTINEL, SENTINEL} + multiset(row[2..]);
  }

  lemma FirstIdsPadding(end: nat, k: nat)
    requires k >= 2 && end >= 2
    ensures k - multiset(FirstIds(end, k))[-1] == Min(k, end)
    ensures forall x :: x >= 0 ==> !Repeats(FirstIds(end, k), x)
  {
    FirstIdsWellFormed(end, k);
    RowMultiplicities(FirstIds(end, k), end, k);
    Counting(FirstIds(end, k));
  }

  /** Putting the sentinel in the first two places is not well-formed and passes anyway. */
  lemma HiddenDuplicate(end: nat, k: nat)
    requires k >= 2 && end > SENTINEL
    ensures TensorRowAccepted(Doubled(FirstIds(end, k)), end, k)
    ensures !IsWellFormedRow(Doubled(FirstIds(end, k)), 0, end, k)
  {
    var before := FirstIds(end, k);
    var row := Doubled(before);
    FirstIdsPadding(end, k);
    DoubledContents(before, -1);
    forall x | x >= 0 && x != SENTINEL ensures !Repeats(row, x) {
      DoubledContents(before, x);
      assert !Repeats(before, x);
    }
    PassesUnlessRepeated(row, end, k);
    TensorRowMeaning(row, end, k);
  }

  function HiddenDuplicateOutput(c: Case): (indices: seq<seq<int>>)
    requires c.Valid() && !SentinelUnused(c)
    ensures ShapeMatches(indices, c.queryTokens, c.topK)
  {
    seq(c.queryTokens, r requires 0 <= r < c.queryTokens =>
      if r < c.queryTokens - 1 then FirstIds(c.CausalEnd(r), c.topK)
      else Doubled(FirstIds(c.CausalEnd(r), c.topK)))
  }

  lemma HiddenDuplicatePasses(c: Case)
    requires c.Valid() && !SentinelUnused(c)
    ensures TensorAccepts(HiddenDuplicateOutput(c), c) && !WellFormed(HiddenDuplicateOutput(c), c)
  {
    var indices := HiddenDuplicateOutput(c);
    forall r | 0 <= r < c.queryTokens ensures TensorRowAccepted(indices[r], c.CausalEnd(r), c.topK) {
      if r < c.queryTokens - 1 {
        FirstIdsWellFormed(c.CausalEnd(r), c.topK);
        TensorRowMeaning(indices[r], c.CausalEnd(r), c.topK);
      } else {
        HiddenDuplicate(c.CausalEnd(r), c.topK);
      }
    }
    HiddenDuplicate(c.CausalEnd(c.queryTokens - 1), c.topK);
  }

  /** The two validators agree on every output of a case exactly when its context is too
      short for the sentinel to be an ID, or no row can hold it twice. */
  lemma ValidatorsAgree(c: Case)
    requires c.Valid()
    ensures c.contextTokens <= 2147483647 || c.topK < 2 || c.queryTokens == 0 <==>
      forall indices :: TensorAccepts(indices, c) <==> WellFormed(indices, c)
  {
    if SentinelUnused(c) {
      forall indices ensures TensorAccepts(indices, c) <==> WellFormed(indices, c) {
        AgreeWhenUnused(indices, c);
      }
    } else {
      HiddenDuplicatePasses(c);
    }
  }

  /** Two well-formed rows sort alike after normalizing exactly when they select the same IDs. */
  lemma SortedComparison(a: seq<int>, b: seq<int>, end: nat, k: nat)
    requires IsWellFormedRow(a, 0, end, k) && IsWellFormedRow(b, 0, end, k)
    ensures Sort(Normalize(a)) == Sort(Normalize(b)) <==> SelectedIds(a) == SelectedIds(b)
  {
    SortComparesContents(Normalize(a), Normalize(b));
    RowMultiplicities(a, end, k);
    RowMultiplicities(b, end, k);
    Counting(a);
    Counting(b);
    forall x
      ensures multiset(Normalize(a))[x] == multiset(Normalize(b))[x] <==> (x < 0 || multiset(a)[x] == multiset(b)[x])
    {
      NormalizedContents(a, x);
      NormalizedContents(b, x);
    }
    if SelectedIds(a) == SelectedIds(b) {
      forall x | x >= 0 ensures multiset(a)[x] == multiset(b)[x] {
        assert x in SelectedIds(a) <==> x in SelectedIds(b);
      }
      assert multiset(Normalize(a)) == multiset(Normalize(b));
    }
    if multiset(Normalize(a)) == multiset(Normalize(b)) {
      forall x ensures x in SelectedIds(a) <==> x in SelectedIds(b) {
        assert multiset(Normalize(a))[x] == multiset(Normalize(b))[x];
      }
    }
  }

  lemma RowMultiplicities(row: seq<int>, end: nat, k: nat)
    requires IsWellFormedRow(row, 0, end, k)
    ensures forall v :: v in row ==> v >= -1
    ensures forall x :: x >= 0 ==> multiset(row)[x] == if x in SelectedIds(row) then 1 else 0
  {
    SelectedCardinality(row);
    forall x | x >= 0 ensures multiset(row)[x] == if x in SelectedIds(row) then 1 else 0 {
      assert !Repeats(row, x);
      assert x in row <==> x in multiset(row);
    }
    forall v | v in row ensures v >= -1 {
      assert v != -1 ==> v in SelectedIds(row);
    }
  }
}
