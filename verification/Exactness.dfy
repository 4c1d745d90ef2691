/** What "exact Top-K" means, for pools of (score key, ID) pairs and for rows of
    output IDs, and the set lemmas every selection stage is composed with. */
module Exactness {
  import opened Arithmetic

  /** A candidate: the order-preserving score key and the token ID packed below it. */
  datatype Pair = Pair(key: nat, id: nat)

  /** `chosen` is an exact Top-k of `pool`: the right number of members, none of
      them beaten by a member left behind. Ties may be resolved either way. */
  ghost predicate IsTopK(pool: set<Pair>, chosen: set<Pair>, k: nat) {
    && chosen <= pool
    && |chosen| == Min(k, |pool|)
    && forall p, q :: p in chosen && q in pool && q !in chosen ==> q.key <= p.key
  }

  /** All pairs of a row's half-open ID range. */
  ghost function RangePairs(key: nat -> nat, lo: nat, hi: nat): set<Pair> {
    set i | lo <= i < hi :: Pair(key(i), i)
  }

  /** The IDs an output row selects; -1 is padding. */
  function SelectedIds(row: seq<int>): set<int> {
    set v | v in row && v != -1
  }

  function CountSelected(row: seq<int>): (n: nat)
    ensures n <= |row|
  {
    if row == [] then 0
    else CountSelected(row[..|row| - 1]) + if row[|row| - 1] != -1 then 1 else 0
  }

  /** An output row of width k: `Min(k, range)` distinct in-range IDs, the rest -1. */
  ghost predicate IsWellFormedRow(row: seq<int>, lo: nat, hi: nat, k: nat) {
    && |row| == k
    && CountSelected(row) == Min(k, Max(0, hi - lo))
    && |SelectedIds(row)| == CountSelected(row)
    && forall v :: v in SelectedIds(row) ==> lo <= v < hi
  }

  /** A well-formed row none of whose IDs is beaten by an unselected in-range ID. */
  ghost predicate IsExactRow(key: nat -> nat, row: seq<int>, lo: nat, hi: nat, k: nat) {
    && IsWellFormedRow(row, lo, hi, k)
    && forall i: nat, j: nat :: i in SelectedIds(row) && lo <= j < hi && j !in SelectedIds(row) ==> key(j) <= key(i)
  }

  // ---------- cardinality and pool lemmas ----------

  lemma SomeMember<T>(s: set<T>) returns (x: T)
    requires s != {}
    ensures x in s
  {
    x :| x in s;
  }

  lemma SubsetCardinality<T>(a: set<T>, b: set<T>)
    requires a <= b
    ensures |a| <= |b|
    ensures |a| == |b| ==> a == b
  {
    assert b == a + (b - a);
    if |a| == |b| {
      assert |b - a| == 0;
    }
  }

  lemma {:induction false} RangeCardinality(key: nat -> nat, lo: nat, hi: nat)
    requires lo <= hi
    ensures |RangePairs(key, lo, hi)| == hi - lo
    decreases hi
  {
    if lo < hi {
      RangeCardinality(key, lo, hi - 1);
      assert RangePairs(key, lo, hi) == RangePairs(key, lo, hi - 1) + {Pair(key(hi - 1), hi - 1)};
    } else {
      assert RangePairs(key, lo, hi) == {};
    }
  }

  /** Some member of `a` is outside `c` once `c` is no larger and is not just `a`. */
  lemma SomeLeftOut<T>(a: set<T>, c: set<T>, extra: T) returns (left: T)
    requires |c| <= |a| && extra in c && extra !in a
    ensures left in a && left !in c
  {
    if a <= c {
      SubsetCardinality(a + {extra}, c);
    }
    left :| left in a && left !in c;
  }

  /** Folding: a Top-k of two local Top-ks is a Top-k of everything both saw. */
  lemma MergeTopK(poolA: set<Pair>, poolB: set<Pair>, a: set<Pair>, b: set<Pair>, c: set<Pair>, k: nat)
    requires poolA !! poolB
    requires IsTopK(poolA, a, k) && IsTopK(poolB, b, k) && IsTopK(a + b, c, k)
    ensures IsTopK(poolA + poolB, c, k)
  {
    assert |a + b| == |a| + |b|;
    assert |poolA + poolB| == |poolA| + |poolB|;
    if |poolA| < k { SubsetCardinality(a, poolA); }
    if |poolB| < k { SubsetCardinality(b, poolB); }
    forall p, q | p in c && q in poolA + poolB && q !in c
      ensures q.key <= p.key
    {
      if q !in a + b {
        var side := if q in poolA then a else b;
        if p !in side {
          SubsetCardinality(side, if q in poolA then poolA else poolB);
          var left := SomeLeftOut(side, c, p);
        }
      }
    }
  }

  /** Filtering: dropping only candidates that `k` kept ones all beat changes nothing. */
  lemma FilterTopK(pool: set<Pair>, kept: set<Pair>, c: set<Pair>, k: nat)
    requires kept <= pool && k <= |kept|
    requires forall p, q :: p in kept && q in pool && q !in kept ==> q.key <= p.key
    requires IsTopK(kept, c, k)
    ensures IsTopK(pool, c, k)
  {
    SubsetCardinality(kept, pool);
  }

  // ---------- from pairs to output rows ----------

  lemma {:induction false} AllSelected(row: seq<int>)
    requires forall j :: 0 <= j < |row| ==> row[j] != -1
    ensures CountSelected(row) == |row|
  {
    if row != [] {
      AllSelected(row[..|row| - 1]);
    }
  }

  lemma {:induction false} NoneSelected(row: seq<int>)
    requires forall j :: 0 <= j < |row| ==> row[j] == -1
    ensures CountSelected(row) == 0
  {
    if row != [] {
      NoneSelected(row[..|row| - 1]);
    }
  }

  lemma {:induction false} CountSelectedConcat(a: seq<int>, b: seq<int>)
    ensures CountSelected(a + b) == CountSelected(a) + CountSelected(b)
    decreases |b|
  {
    if b == [] {
      assert a + b == a;
    } else {
      assert (a + b)[..|a + b| - 1] == a + b[..|b| - 1];
      CountSelectedConcat(a, b[..|b| - 1]);
    }
  }

  ghost function Members<T>(s: seq<T>): set<T> {
    set x | x in s
  }

  ghost predicate NoDuplicates<T>(s: seq<T>) {
    forall i, j :: 0 <= i < j < |s| ==> s[i] != s[j]
  }

  lemma {:induction false} NoDuplicatesCardinality<T>(s: seq<T>)
    requires NoDuplicates(s)
    ensures |Members(s)| == |s|
  {
    if s != [] {
      var front, last := s[..|s| - 1], s[|s| - 1];
      NoDuplicatesCardinality(front);
      assert Members(s) == Members(front) + {last};
    } else {
      assert Members(s) == {};
    }
  }

  /** The IDs of distinct pairs drawn from a range are distinct, in range and not padding. */
  lemma FullRowIds(key: nat -> nat, lo: nat, hi: nat, chosen: seq<Pair>, row: seq<int>)
    requires |row| == |chosen| && NoDuplicates(chosen)
    requires Members(chosen) <= RangePairs(key, lo, hi)
    requires forall j :: 0 <= j < |row| ==> row[j] == chosen[j].id
    ensures CountSelected(row) == |SelectedIds(row)| == |row|
    ensures forall v :: v in SelectedIds(row) ==> lo <= v < hi
    ensures forall i: nat :: i in SelectedIds(row) <==> Pair(key(i), i) in Members(chosen)
  {
    forall j | 0 <= j < |row|
      ensures lo <= row[j] < hi && chosen[j] == Pair(key(row[j]), row[j])
    {
      assert chosen[j] in Members(chosen);
    }
    AllSelected(row);
    NoDuplicatesCardinality(row);
    assert SelectedIds(row) == Members(row);
    forall i: nat ensures i in SelectedIds(row) <==> Pair(key(i), i) in Members(chosen) {
      if Pair(key(i), i) in Members(chosen) {
        var n :| 0 <= n < |row| && chosen[n] == Pair(key(i), i);
        assert row[n] == i;
      }
    }
  }

  /** A full row holding exactly the IDs of an exact pair selection is exact. */
  lemma RowFromPairs(key: nat -> nat, lo: nat, hi: nat, k: nat, chosen: seq<Pair>, row: seq<int>)
    requires lo <= hi && k <= hi - lo
    requires |chosen| == k == |row| && NoDuplicates(chosen)
    requires IsTopK(RangePairs(key, lo, hi), Members(chosen), k)
    requires forall j :: 0 <= j < k ==> row[j] == chosen[j].id
    ensures IsExactRow(key, row, lo, hi, k)
  {
    FullRowIds(key, lo, hi, chosen, row);
    forall i: nat, j: nat | i in SelectedIds(row) && lo <= j < hi && j !in SelectedIds(row)
      ensures key(j) <= key(i)
    {
      assert Pair(key(j), j) in RangePairs(key, lo, hi);
    }
  }

  /** A row that lists its whole range and pads with -1 is exact whenever the range fits. */
  lemma ShortRow(key: nat -> nat, lo: nat, hi: nat, k: nat, row: seq<int>)
    requires Max(0, hi - lo) <= k == |row|
    requires forall j :: 0 <= j < k ==> row[j] == if j < hi - lo then lo + j else -1
    ensures IsExactRow(key, row, lo, hi, k)
  {
    var n := Max(0, hi - lo);
    var head, tail := row[..n], row[n..];
    assert row == head + tail;
    CountSelectedConcat(head, tail);
    AllSelected(head);
    NoneSelected(tail);
    NoDuplicatesCardinality(head);
    forall v ensures v in SelectedIds(row) <==> lo <= v < hi {
      if lo <= v < hi { assert row[v - lo] == v; }
    }
    forall v ensures v in head <==> lo <= v < hi {
      if lo <= v < hi { assert head[v - lo] == v; }
    }
    assert SelectedIds(row) == Members(head);
  }
}
