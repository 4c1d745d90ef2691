/** Machine words as their bits, and what the bit operations mean for the numbers they spell. */
module Words {
  import opened Arithmetic

  /** Least significant bit first. */
  type Word = seq<bool>

  const WORD_BITS: nat := 32

  function Pow2(n: nat): (p: nat)
    ensures p > 0
  {
    if n == 0 then 1 else 2 * Pow2(n - 1)
  }

  lemma {:induction false} Pow2Adds(a: nat, b: nat)
    ensures Pow2(a + b) == Pow2(a) * Pow2(b)
  {
    if a > 0 {
      Pow2Adds(a - 1, b);
      Doubled(Pow2(a - 1), Pow2(b), Pow2(a), Pow2(a + b));
    }
  }

  lemma Doubled(p: nat, q: nat, pp: nat, r: nat)
    requires pp == 2 * p && r == 2 * (p * q)
    ensures r == pp * q
  {
  }

  lemma PowerSum(a: nat, b: nat, pa: nat, pb: nat)
    requires Pow2(a) == pa && Pow2(b) == pb
    ensures Pow2(a + b) == pa * pb
  {
    Pow2Adds(a, b);
  }

  lemma PowersOfTwo()
    ensures Pow2(4) == 16 && Pow2(8) == 0x100 && Pow2(16) == 0x1_0000 && Pow2(24) == 0x100_0000
    ensures Pow2(31) == 0x8000_0000 && Pow2(32) == 0x1_0000_0000
  {
    PowerSum(2, 2, 4, 4);
    PowerSum(4, 4, 16, 16);
    PowerSum(8, 8, 0x100, 0x100);
    PowerSum(8, 16, 0x100, 0x1_0000);
    PowerSum(24, 4, 0x100_0000, 16);
    PowerSum(28, 3, 0x1000_0000, 8);
    PowerSum(31, 1, 0x8000_0000, 2);
  }

  /** The number a word spells. */
  function Value(w: Word): (v: nat)
    ensures v < Pow2(|w|)
  {
    if w == [] then 0 else (if w[0] then 1 else 0) + 2 * Value(w[1..])
  }

  function Zeros(n: nat): (w: Word)
    ensures |w| == n
  {
    seq(n, i => false)
  }

  /** The word of `n` bits whose bits [lo, hi) are set. */
  function Mask(n: nat, lo: nat, hi: nat): (w: Word)
    ensures |w| == n
  {
    seq(n, i => lo <= i < hi)
  }

  function And(a: Word, b: Word): (w: Word)
    requires |a| == |b|
    ensures |w| == |a|
  {
    seq(|a|, i requires 0 <= i < |a| => a[i] && b[i])
  }

  function Or(a: Word, b: Word): (w: Word)
    requires |a| == |b|
    ensures |w| == |a|
  {
    seq(|a|, i requires 0 <= i < |a| => a[i] || b[i])
  }

  function Xor(a: Word, b: Word): (w: Word)
    requires |a| == |b|
    ensures |w| == |a|
  {
    seq(|a|, i requires 0 <= i < |a| => a[i] != b[i])
  }

  function Not(a: Word): (w: Word)
    ensures |w| == |a|
  {
    seq(|a|, i requires 0 <= i < |a| => !a[i])
  }

  function ShiftRight(a: Word, k: nat): (w: Word)
    requires k <= |a|
    ensures |w| == |a|
  {
    a[k..] + Zeros(k)
  }

  function ShiftLeft(a: Word, k: nat): (w: Word)
    requires k <= |a|
    ensures |w| == |a|
  {
    Zeros(k) + a[..|a| - k]
  }

  // ---------- the numbers ----------

  lemma CarryOut(first: nat, low: nat, p: nat, high: nat)
    ensures first + 2 * (low + p * high) == (first + 2 * low) + (2 * p) * high
  {
  }

  lemma {:induction false} ValueOfConcat(a: Word, b: Word)
    ensures Value(a + b) == Value(a) + Pow2(|a|) * Value(b)
  {
    if a == [] {
      assert a + b == b && Value(a) == 0 && Pow2(|a|) == 1;
    } else {
      ValueOfConcat(a[1..], b);
      CarryOut(if a[0] then 1 else 0, Value(a[1..]), Pow2(|a| - 1), Value(b));
      ConcatStep(a, b);
    }
  }

  lemma {:induction false} ConcatStep(a: Word, b: Word)
    requires a != []
    ensures Value(a + b) == (if a[0] then 1 else 0) + 2 * Value(a[1..] + b)
    ensures Value(a) == (if a[0] then 1 else 0) + 2 * Value(a[1..]) && Pow2(|a|) == 2 * Pow2(|a| - 1)
  {
    assert (a + b)[1..] == a[1..] + b;
  }

  lemma {:induction false} ValueOfZeros(n: nat)
    ensures Value(Zeros(n)) == 0
  {
    if n > 0 {
      assert Zeros(n)[1..] == Zeros(n - 1);
      ValueOfZeros(n - 1);
    }
  }

  lemma {:induction false} ZeroMeansZeros(w: Word)
    ensures Value(w) == 0 <==> w == Zeros(|w|)
  {
    if w == Zeros(|w|) {
      ValueOfZeros(|w|);
    }
    if Value(w) == 0 && w != [] {
      ZeroMeansZeros(w[1..]);
      assert w == [w[0]] + w[1..];
    }
  }

  lemma Scaled(v: nat, p: nat, high: nat, low: nat)
    requires v == low + p * high && low < p
    ensures v % p == low && v / p == high
  {
    QuotientAndRemainder(v, p, high, low);
  }

  /** Low and high bits are remainder and quotient. */
  lemma {:induction false} ValueSplits(w: Word, k: nat)
    requires k <= |w|
    ensures Value(w[..k]) == Value(w) % Pow2(k) && Value(w[k..]) == Value(w) / Pow2(k)
    ensures Value(w) == Value(w[..k]) + Pow2(k) * Value(w[k..])
  {
    var low, high := w[..k], w[k..];
    assert w == low + high;
    ValueOfConcat(low, high);
    Scaled(Value(w), Pow2(k), Value(high), Value(low));
  }

  /** Words of one length are told apart by their numbers. */
  lemma {:induction false} ValueIsInjective(a: Word, b: Word)
    requires |a| == |b|
    ensures Value(a) == Value(b) <==> a == b
  {
    if a != [] {
      ValueIsInjective(a[1..], b[1..]);
      assert a == [a[0]] + a[1..] && b == [b[0]] + b[1..];
    }
  }

  lemma {:induction false} ValueOfNot(w: Word)
    ensures Value(Not(w)) == Pow2(|w|) - 1 - Value(w)
  {
    if w != [] {
      assert Not(w)[1..] == Not(w[1..]);
      ValueOfNot(w[1..]);
    }
  }

  /** Keeping the bits [lo, hi) clears the others. */
  lemma {:induction false} MaskedBits(w: Word, lo: nat, hi: nat)
    requires lo <= hi <= |w|
    ensures And(w, Mask(|w|, lo, hi)) == Zeros(lo) + w[lo..hi] + Zeros(|w| - hi)
  {
  }

  /** Zeros below scale a word, zeros above leave it alone. */
  lemma {:induction false} ValueOfPadded(lo: nat, w: Word, hi: nat)
    ensures Value(Zeros(lo) + w + Zeros(hi)) == Pow2(lo) * Value(w)
  {
    ValueOfConcat(Zeros(lo) + w, Zeros(hi));
    ValueOfConcat(Zeros(lo), w);
    ValueOfZeros(lo);
    ValueOfZeros(hi);
  }

  lemma {:induction false} ValueOfMasked(w: Word, lo: nat, hi: nat)
    requires lo <= hi <= |w|
    ensures Value(And(w, Mask(|w|, lo, hi))) == Pow2(lo) * Value(w[lo..hi])
  {
    MaskedBits(w, lo, hi);
    ValueOfPadded(lo, w[lo..hi], |w| - hi);
  }

  /** The same for a power known by its value. */
  lemma {:induction false} BitFields(w: Word, k: nat, p: nat)
    requires k <= |w| && Pow2(k) == p
    ensures Value(w[..k]) == Value(w) % p && Value(w[k..]) == Value(w) / p
  {
    ValueSplits(w, k);
  }

  lemma {:induction false} ValueOfShiftRight(w: Word, k: nat)
    requires k <= |w|
    ensures Value(ShiftRight(w, k)) == Value(w) / Pow2(k)
  {
    ValueOfConcat(w[k..], Zeros(k));
    ValueOfZeros(k);
    ValueSplits(w, k);
  }

  /** A word whose bits below `k` are clear. */
  lemma {:induction false} ValueOfHigh(w: Word, k: nat)
    requires k <= |w| && w[..k] == Zeros(k)
    ensures Value(w) == Pow2(k) * Value(w[k..])
  {
    ValueSplits(w, k);
    ValueOfZeros(k);
  }

  /** Two and three fields side by side. */
  lemma {:induction false} TwoFields(w: Word, a: Word, b: Word, p: nat)
    requires w == a + b && Pow2(|a|) == p
    ensures Value(w) == Value(a) + p * Value(b)
  {
    ValueOfConcat(a, b);
  }

  lemma {:induction false} ThreeFields(w: Word, a: Word, b: Word, c: Word, p: nat, q: nat)
    requires w == a + b + c && Pow2(|a|) == p && Pow2(|a| + |b|) == q
    ensures Value(w) == Value(a) + p * Value(b) + q * Value(c)
  {
    TwoFields(w, a + b, c, q);
    TwoFields(a + b, a, b, p);
  }

  /** A word whose bits from `k` on are clear. */
  lemma {:induction false} ValueOfLow(w: Word, k: nat)
    requires k <= |w| && w[k..] == Zeros(|w| - k)
    ensures Value(w[..k]) == Value(w)
  {
    ValueSplits(w, k);
    ValueOfZeros(|w| - k);
  }
}
