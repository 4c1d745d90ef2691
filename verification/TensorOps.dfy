/** The two library operations the output checks lean on: the largest n entries of a row,
    and sorting a row. */
module TensorOps {
  import opened Arithmetic
  import opened Exactness

  // ---------- the n largest entries, in descending order ----------

  /** `values` are the entries of `row` at the distinct positions `picked`, descending, and
      no other entry is larger than any of them. */
  ghost predicate AreTopValues(row: seq<nat>, n: nat, values: seq<nat>, picked: seq<nat>) {
    && |values| == |picked| == n && NoDuplicates(picked)
    && (forall j :: 0 <= j < n ==> picked[j] < |row| && values[j] == row[picked[j]])
    && (forall i, j :: 0 <= i < j < n ==> values[j] <= values[i])
    && forall p: nat, j :: p < |row| && p !in picked && 0 <= j < n ==> row[p] <= values[j]
  }

  method ArgMax(row: seq<nat>, among: set<nat>) returns (best: nat)
    requires among != {} && forall p :: p in among ==> p < |row|
    ensures best in among && forall p :: p in among ==> row[p] <= row[best]
  {
    best :| best in among;
    var rest := among - {best};
    while rest != {}
      invariant rest < among && best in among - rest
      invariant forall p :: p in among - rest ==> row[p] <= row[best]
      decreases |rest|
    {
      var p :| p in rest;
      if row[best] < row[p] { best := p; }
      rest := rest - {p};
    }
  }

  method TopValues(row: seq<nat>, n: nat) returns (values: seq<nat>, picked: seq<nat>)
    requires n <= |row|
    ensures AreTopValues(row, n, values, picked)
  {
    values, picked := [], [];
    var rest: set<nat> := Interval(0, |row|);
    while |values| < n
      invariant |values| <= n && |rest| == |row| - |values|
      invariant forall p: nat :: p in rest <==> p < |row| && p !in picked
      invariant AreTopValues(row, |values|, values, picked)
    {
      var best := ArgMax(row, rest);
      values, picked, rest := values + [row[best]], picked + [best], rest - {best};
    }
  }

  /** How many of the listed entries exceed the cutoff. */
  function CountAbove(values: seq<nat>, cutoff: nat): (n: nat)
    ensures n <= |values|
  {
    if values == [] then 0
    else CountAbove(values[..|values| - 1], cutoff) + if values[|values| - 1] > cutoff then 1 else 0
  }

  ghost function AboveAmong(row: seq<nat>, ids: seq<nat>, cutoff: nat): set<nat> {
    set id | id in ids && id < |row| && row[id] > cutoff
  }

  /** Counting the gathered entries counts the positions they came from. */
  lemma {:induction false} CountAboveIsCardinality(row: seq<nat>, ids: seq<nat>, values: seq<nat>, cutoff: nat)
    requires |ids| == |values| && NoDuplicates(ids)
    requires forall j :: 0 <= j < |ids| ==> ids[j] < |row| && values[j] == row[ids[j]]
    ensures CountAbove(values, cutoff) == |AboveAmong(row, ids, cutoff)|
  {
    if ids == [] {
      assert AboveAmong(row, ids, cutoff) == {};
    } else {
      var front, last := ids[..|ids| - 1], ids[|ids| - 1];
      CountAboveIsCardinality(row, front, values[..|values| - 1], cutoff);
      AboveOneMore(row, front, last, cutoff);
      assert ids == front + [last];
    }
  }

  lemma AboveOneMore(row: seq<nat>, front: seq<nat>, last: nat, cutoff: nat)
    requires last < |row| && last !in front
    ensures AboveAmong(row, front + [last], cutoff) ==
      AboveAmong(row, front, cutoff) + if row[last] > cutoff then {last} else {}
    ensures |AboveAmong(row, front + [last], cutoff)| ==
      |AboveAmong(row, front, cutoff)| + if row[last] > cutoff then 1 else 0
  {
    assert last !in AboveAmong(row, front, cutoff);
    assert AboveAmong(row, front + [last], cutoff) ==
      AboveAmong(row, front, cutoff) + if row[last] > cutoff then {last} else {};
  }

  // ---------- sorting ----------

  ghost predicate IsLowerBound(x: int, s: multiset<int>) {
    forall v :: v in s ==> x <= v
  }

  /** Ascending: each entry bounds everything after it. */
  ghost predicate IsSorted(s: seq<int>) {
    s == [] || (IsLowerBound(s[0], multiset(s[1..])) && IsSorted(s[1..]))
  }

  function Insert(x: int, s: seq<int>): seq<int> {
    if s == [] || x <= s[0] then [x] + s else [s[0]] + Insert(x, s[1..])
  }

  function Sort(s: seq<int>): seq<int> {
    if s == [] then [] else Insert(s[0], Sort(s[1..]))
  }

  lemma FrontAndLast(s: seq<int>)
    requires s != []
    ensures
      var front, last := s[..|s| - 1], s[|s| - 1];
      multiset(s) == multiset(front) + multiset{last} && forall v :: v in s <==> v in front || v == last
  {
    assert s == s[..|s| - 1] + [s[|s| - 1]];
  }

  lemma HeadAndTail(s: seq<int>)
    requires s != []
    ensures multiset(s) == multiset{s[0]} + multiset(s[1..])
  {
    assert s == [s[0]] + s[1..];
  }

  lemma {:induction false} InsertFacts(x: int, s: seq<int>)
    requires IsSorted(s)
    ensures IsSorted(Insert(x, s)) && multiset(Insert(x, s)) == multiset{x} + multiset(s)
  {
    if s != [] { HeadAndTail(s); }
    if s == [] || x <= s[0] {
      assert ([x] + s)[1..] == s;
    } else {
      InsertFacts(x, s[1..]);
      assert ([s[0]] + Insert(x, s[1..]))[1..] == Insert(x, s[1..]);
    }
  }

  lemma {:induction false} SortFacts(s: seq<int>)
    ensures IsSorted(Sort(s)) && multiset(Sort(s)) == multiset(s)
  {
    if s != [] {
      SortFacts(s[1..]);
      InsertFacts(s[0], Sort(s[1..]));
      HeadAndTail(s);
    }
  }

  lemma SmallerHead(a: seq<int>, b: seq<int>)
    requires IsSorted(b) && a != [] && multiset(a) == multiset(b)
    ensures b != [] && b[0] <= a[0]
  {
    HeadAndTail(a);
    assert a[0] in multiset(b);
    assert |b| == |multiset(b)| == |multiset(a)| == |a|;
    HeadAndTail(b);
  }

  lemma {:induction false} SortedIsUnique(a: seq<int>, b: seq<int>)
    requires IsSorted(a) && IsSorted(b) && multiset(a) == multiset(b)
    ensures a == b
  {
    if a == [] {
      if b != [] { SmallerHead(b, a); }
    } else {
      SmallerHead(a, b);
      SmallerHead(b, a);
      HeadAndTail(a);
      HeadAndTail(b);
      assert multiset(a[1..]) == multiset(a) - multiset{a[0]} == multiset(b[1..]);
      SortedIsUnique(a[1..], b[1..]);
      assert a == [a[0]] + a[1..] && b == [b[0]] + b[1..];
    }
  }

  /** Rows sort alike exactly when they hold the same entries equally often. */
  lemma SortComparesContents(a: seq<int>, b: seq<int>)
    ensures Sort(a) == Sort(b) <==> multiset(a) == multiset(b)
  {
    SortFacts(a);
    SortFacts(b);
    if multiset(a) == multiset(b) {
      SortedIsUnique(Sort(a), Sort(b));
    }
  }

  ghost predicate Repeats(s: seq<int>, x: int) {
    multiset(s)[x] >= 2
  }

  predicate AdjacentRepeat(s: seq<int>, x: int) {
    exists j :: 0 < j < |s| && s[j] == s[j - 1] == x
  }

  lemma {:induction false} SortedRepeats(s: seq<int>, x: int)
    requires IsSorted(s)
    ensures AdjacentRepeat(s, x) <==> Repeats(s, x)
  {
    if s != [] {
      var tail := s[1..];
      HeadAndTail(s);
      SortedRepeats(tail, x);
      if AdjacentRepeat(tail, x) {
        var j :| 0 < j < |tail| && tail[j] == tail[j - 1] == x;
        assert s[j + 1] == s[j + 1 - 1] == x;
      }
      if Repeats(s, x) && !Repeats(tail, x) {
        assert s[0] == x && x in multiset(tail);
        HeadAndTail(tail);
        assert s[1] == s[1 - 1] == x;
      }
      if AdjacentRepeat(s, x) {
        var j :| 0 < j < |s| && s[j] == s[j - 1] == x;
        if j > 1 { assert tail[j - 1] == tail[j - 1 - 1] == x; }
        assert tail[0] in multiset(tail);
      }
    }
  }

  /** In sorted order an entry's copies are neighbours. */
  lemma SortedRepeatsAreAdjacent(s: seq<int>, x: int)
    ensures AdjacentRepeat(Sort(s), x) <==> Repeats(s, x)
  {
    SortFacts(s);
    SortedRepeats(Sort(s), x);
  }
}
