/** Small integer facts used across the model. */
module Arithmetic {

  function Min(a: int, b: int): int {
    if a < b then a else b
  }

  function Max(a: int, b: int): int {
    if a < b then b else a
  }

  lemma ScaledStep(a: nat, b: nat, m: nat)
    requires a < b
    ensures a * m + m <= b * m
  {
    assert (a + 1) * m <= b * m;
  }

  lemma QuotientAndRemainder(a: nat, m: nat, q: nat, r: nat)
    requires m > 0 && a == q * m + r && r < m
    ensures a / m == q && a % m == r
  {
    if a / m < q { ScaledStep(a / m, q, m); }
    if a / m > q { ScaledStep(q, a / m, m); }
  }

  /** How often position `v` of a ring of `n` comes up in the first `visits` visits. */
  function VisitsTo(visits: nat, v: nat, n: nat): nat
    requires v < n
  {
    visits / n + if v < visits % n then 1 else 0
  }

  /** The next visit moves one position on, or starts the next round. */
  lemma RemainderStep(visits: nat, n: nat)
    requires n > 0
    ensures (visits + 1) % n == if visits % n + 1 == n then 0 else visits % n + 1
    ensures (visits + 1) / n == visits / n + if visits % n + 1 == n then 1 else 0
  {
    var q, r := visits / n, visits % n;
    assert visits == q * n + r;
    if r + 1 < n {
      QuotientAndRemainder(visits + 1, n, q, r + 1);
    } else {
      assert (q + 1) * n == q * n + n;
      QuotientAndRemainder(visits + 1, n, q + 1, 0);
    }
  }

  lemma OneMoreVisit(visits: nat, v: nat, n: nat)
    requires v < n
    ensures VisitsTo(visits + 1, v, n) == VisitsTo(visits, v, n) + if v == visits % n then 1 else 0
  {
    RemainderStep(visits, n);
  }

  lemma {:induction false} MoreVisits(a: nat, b: nat, v: nat, n: nat)
    requires v < n && a <= b
    ensures VisitsTo(a, v, n) <= VisitsTo(b, v, n)
    decreases b
  {
    if a < b {
      MoreVisits(a, b - 1, v, n);
      OneMoreVisit(b - 1, v, n);
    }
  }

  /** The numbers of [lo, hi). */
  function Interval(lo: nat, hi: nat): (numbers: set<nat>)
    ensures forall i :: i in numbers <==> lo <= i < hi
    ensures |numbers| == Max(0, hi - lo)
    decreases hi
  {
    if hi <= lo then {} else Interval(lo, hi - 1) + {hi - 1}
  }

  /** Sum of the first `n` counts. */
  function SumFirst(counts: seq<nat>, n: nat): nat
    requires n <= |counts|
  {
    if n == 0 then 0 else SumFirst(counts, n - 1) + counts[n - 1]
  }

  lemma {:induction false} SumUpdate(counts: seq<nat>, n: nat, d: nat, more: nat)
    requires d < n <= |counts|
    ensures SumFirst(counts[d := counts[d] + more], n) == SumFirst(counts, n) + more
  {
    if d < n - 1 {
      SumUpdate(counts, n - 1, d, more);
    } else {
      SumSame(counts, counts[d := counts[d] + more], n - 1);
    }
  }

  lemma {:induction false} SumSame(a: seq<nat>, b: seq<nat>, n: nat)
    requires n <= |a| && n <= |b| && forall i :: 0 <= i < n ==> a[i] == b[i]
    ensures SumFirst(a, n) == SumFirst(b, n)
  {
    if n > 0 { SumSame(a, b, n - 1); }
  }
}
