/** Four-round byte radix selection: what each round keeps, and why the last one
    leaves the k-th largest key together with the exact number of ties to take. */
module RadixSelect {
  import opened Arithmetic
  import opened Words
  import opened WarpPrimitives

  const KEY_SPACE: nat := 0x1_0000_0000

  /** The weight of the byte examined in each round (shift 24, 16, 8, 0). */
  const UNITS: seq<nat> := [0x100_0000, 0x1_0000, 0x100, 1]

  /** The live positions whose key lies in [lo, hi). */
  ghost function Between(keys: seq<nat>, live: set<nat>, lo: nat, hi: nat): set<nat> {
    set i | i in live && i < |keys| && lo <= keys[i] < hi
  }

  /** Live positions exist and hold 32-bit keys. */
  ghost predicate ValidKeys(keys: seq<nat>, live: set<nat>) {
    forall i :: i in live ==> i < |keys| && keys[i] < KEY_SPACE
  }

  /** The round invariant: `rank` counts down inside the keys matching the prefix. */
  ghost predicate RadixInvariant(keys: seq<nat>, live: set<nat>, k: nat, prefix: nat, span: nat, rank: nat) {
    && span > 0 && prefix % span == 0 && prefix + span <= KEY_SPACE
    && |Between(keys, live, prefix + span, KEY_SPACE)| + rank == k
    && 1 <= rank <= |Between(keys, live, prefix, prefix + span)|
  }

  /** `threshold` is the k-th largest live key and `ties` of its holders complete the k. */
  ghost predicate IsKthLargest(keys: seq<nat>, live: set<nat>, k: nat, threshold: nat, ties: nat) {
    RadixInvariant(keys, live, k, threshold, 1, ties)
  }

  /** How many live keys lie in byte bin `b` under the prefix. */
  ghost function BinCount(keys: seq<nat>, live: set<nat>, prefix: nat, unit: nat, b: nat): nat {
    |Between(keys, live, prefix + b * unit, prefix + b * unit + unit)|
  }

  ghost predicate IsHistogram(h: seq<nat>, keys: seq<nat>, live: set<nat>, prefix: nat, unit: nat) {
    && |h| == BINS
    && forall b :: 0 <= b < BINS ==> h[b] == BinCount(keys, live, prefix, unit, b)
  }

  /** The key agrees with the prefix on every byte above the current one. */
  predicate Matches(key: nat, prefix: nat, unit: nat)
    requires unit > 0
  {
    key / (BINS * unit) == prefix / (BINS * unit)
  }

  function Digit(key: nat, unit: nat): (b: nat)
    requires unit > 0
    ensures b < BINS
  {
    (key / unit) % BINS
  }

  /** The rounds' weights are the shifts 24, 16, 8 and 0. */
  lemma RoundUnits(round: nat)
    requires round < 4
    ensures UNITS[round] == Pow2(24 - 8 * round)
  {
    PowersOfTwo();
  }

  /** A prefix with the bytes from `shift` down still open. */
  predicate IsPrefixWord(prefix: Word, shift: nat) {
    |prefix| == WORD_BITS && shift + 8 <= WORD_BITS && prefix[..shift + 8] == Zeros(shift + 8)
  }

  /** Masking with the bytes fixed so far and comparing, and shifting the next byte out, are
      the two functions above. */
  lemma {:induction false} PrefixBits(score: Word, prefix: Word, shift: nat)
    requires |score| == WORD_BITS && IsPrefixWord(prefix, shift)
    ensures And(score, Mask(WORD_BITS, shift + 8, WORD_BITS)) == prefix <==>
      Matches(Value(score), Value(prefix), Pow2(shift))
    ensures Value(And(ShiftRight(score, shift), Mask(WORD_BITS, 0, 8))) == Digit(Value(score), Pow2(shift))
  {
    var m := shift + 8;
    PowersOfTwo();
    PowerSum(8, shift, BINS, Pow2(shift));
    MaskedBits(score, m, WORD_BITS);
    assert prefix == Zeros(m) + prefix[m..];
    assert And(score, Mask(WORD_BITS, m, WORD_BITS)) == Zeros(m) + score[m..];
    SameTail(Zeros(m), score[m..], prefix[m..]);
    ValueIsInjective(score[m..], prefix[m..]);
    ValueSplits(score, m);
    ValueSplits(prefix, m);
    ShiftedByte(score, shift);
  }

  lemma {:induction false} SameTail(low: Word, a: Word, b: Word)
    ensures low + a == low + b <==> a == b
  {
    assert (low + a)[|low|..] == a && (low + b)[|low|..] == b;
  }

  lemma {:induction false} ShiftedByte(score: Word, shift: nat)
    requires |score| == WORD_BITS && shift <= WORD_BITS
    ensures Value(And(ShiftRight(score, shift), Mask(WORD_BITS, 0, 8))) == Digit(Value(score), Pow2(shift))
  {
    PowersOfTwo();
    var shifted := ShiftRight(score, shift);
    ValueOfMasked(shifted, 0, 8);
    assert shifted[0..8] == shifted[..8] && Pow2(0) == 1;
    ValueSplits(shifted, 8);
    ValueOfShiftRight(score, shift);
  }

  lemma {:induction false} ByteFields(prefix: Word, byte: Word, shift: nat)
    requires IsPrefixWord(prefix, shift) && |byte| == WORD_BITS && byte[8..] == Zeros(WORD_BITS - 8)
    ensures Or(prefix, ShiftLeft(byte, shift)) == Zeros(shift) + byte[..8] + prefix[shift + 8..]
  {
    forall i | 8 <= i < WORD_BITS ensures !byte[i] {
      assert byte[8..][i - 8] == byte[i];
    }
    forall i | 0 <= i < shift + 8 ensures !prefix[i] {
      assert prefix[..shift + 8][i] == prefix[i];
    }
  }

  /** Setting the byte just selected adds it. */
  lemma {:induction false} ByteBits(prefix: Word, byte: Word, shift: nat)
    requires IsPrefixWord(prefix, shift) && |byte| == WORD_BITS && byte[8..] == Zeros(WORD_BITS - 8)
    ensures Value(Or(prefix, ShiftLeft(byte, shift))) == Value(prefix) + Value(byte) * Pow2(shift)
  {
    var m := shift + 8;
    ByteFields(prefix, byte, shift);
    ThreeFields(Or(prefix, ShiftLeft(byte, shift)), Zeros(shift), byte[..8], prefix[m..], Pow2(shift), Pow2(m));
    ValueOfZeros(shift);
    ValueOfLow(byte, 8);
    ValueOfHigh(prefix, m);
    Swapped(Pow2(shift), Value(byte));
  }

  lemma Swapped(a: nat, b: nat)
    ensures a * b == b * a
  {
  }

  /** A word that holds one byte. */
  predicate IsByteWord(byte: Word) {
    |byte| == WORD_BITS && byte[8..] == Zeros(WORD_BITS - 8)
  }

  /** The source's prefix mask before round `round`: each round sets the byte it fixed. */
  function MaskWord(round: nat): (w: Word)
    requires round <= 4
    ensures |w| == WORD_BITS
  {
    if round == 0 then Zeros(WORD_BITS)
    else Or(MaskWord(round - 1), ShiftLeft(Mask(WORD_BITS, 0, 8), 24 - 8 * (round - 1)))
  }

  /** And its threshold, once the rounds have selected these bytes. */
  function ThresholdWord(bytes: seq<Word>, round: nat): (w: Word)
    requires round <= |bytes| <= 4 && forall i :: 0 <= i < |bytes| ==> IsByteWord(bytes[i])
    ensures |w| == WORD_BITS
  {
    if round == 0 then Zeros(WORD_BITS)
    else Or(ThresholdWord(bytes, round - 1), ShiftLeft(bytes[round - 1], 24 - 8 * (round - 1)))
  }

  /** The same threshold in the arithmetic of the rounds. */
  function ThresholdKey(bytes: seq<Word>, round: nat): nat
    requires round <= |bytes| <= 4
  {
    if round == 0 then 0 else ThresholdKey(bytes, round - 1) + Value(bytes[round - 1]) * UNITS[round - 1]
  }

  lemma {:induction false} MaskCoversFixedBytes(round: nat)
    requires round <= 4
    ensures MaskWord(round) == Mask(WORD_BITS, WORD_BITS - 8 * round, WORD_BITS)
  {
    if round > 0 {
      MaskCoversFixedBytes(round - 1);
    }
  }

  /** Or-ing a byte in, at a shift whose weight is known. */
  lemma {:induction false} OneByteMore(prefix: Word, byte: Word, shift: nat, unit: nat)
    requires IsPrefixWord(prefix, shift) && IsByteWord(byte) && Pow2(shift) == unit
    ensures Value(Or(prefix, ShiftLeft(byte, shift))) == Value(prefix) + Value(byte) * unit
  {
    ByteBits(prefix, byte, shift);
  }

  /** The bytes not yet selected are clear in the threshold. */
  lemma {:induction false} ThresholdIsPrefix(bytes: seq<Word>, round: nat)
    requires round <= |bytes| <= 4 && forall i :: 0 <= i < |bytes| ==> IsByteWord(bytes[i])
    ensures ThresholdWord(bytes, round)[..WORD_BITS - 8 * round] == Zeros(WORD_BITS - 8 * round)
  {
    if round > 0 {
      ThresholdIsPrefix(bytes, round - 1);
      ByteFields(ThresholdWord(bytes, round - 1), bytes[round - 1], 24 - 8 * (round - 1));
    }
  }

  lemma {:induction false} KeyStep(bytes: seq<Word>, round: nat)
    requires round < |bytes| <= 4 && forall i :: 0 <= i < |bytes| ==> IsByteWord(bytes[i])
    ensures Value(ThresholdWord(bytes, round + 1)) ==
      Value(ThresholdWord(bytes, round)) + Value(bytes[round]) * UNITS[round]
  {
    var prefix, byte, shift := ThresholdWord(bytes, round), bytes[round], 24 - 8 * round;
    ThresholdIsPrefix(bytes, round);
    RoundUnits(round);
    OneByteMore(prefix, byte, shift, UNITS[round]);
  }

  lemma {:induction false} ThresholdSpellsKey(bytes: seq<Word>, round: nat)
    requires round <= |bytes| <= 4 && forall i :: 0 <= i < |bytes| ==> IsByteWord(bytes[i])
    ensures Value(ThresholdWord(bytes, round)) == ThresholdKey(bytes, round)
  {
    if round == 0 {
      ValueOfZeros(WORD_BITS);
    } else {
      ThresholdSpellsKey(bytes, round - 1);
      KeyStep(bytes, round - 1);
    }
  }

  /** Masking, comparing and shifting at a shift whose weight is known. */
  lemma {:induction false} WordsMatch(score: Word, prefix: Word, mask: Word, shift: nat, unit: nat)
    requires |score| == WORD_BITS && IsPrefixWord(prefix, shift) && Pow2(shift) == unit
    requires mask == Mask(WORD_BITS, shift + 8, WORD_BITS)
    ensures And(score, mask) == prefix <==> Matches(Value(score), Value(prefix), unit)
    ensures Value(And(ShiftRight(score, shift), Mask(WORD_BITS, 0, 8))) == Digit(Value(score), unit)
  {
    PrefixBits(score, prefix, shift);
  }

  /** Round by round, the masks, comparisons and shifts of the source decide exactly what the
      arithmetic of the rounds does, and its threshold spells the same key. */
  lemma {:induction false} RoundOnWords(score: Word, bytes: seq<Word>, round: nat)
    requires |score| == WORD_BITS && round <= |bytes| <= 4
    requires forall i :: 0 <= i < |bytes| ==> IsByteWord(bytes[i])
    ensures Value(ThresholdWord(bytes, round)) == ThresholdKey(bytes, round)
    ensures round < 4 ==>
      && (And(score, MaskWord(round)) == ThresholdWord(bytes, round) <==>
            Matches(Value(score), ThresholdKey(bytes, round), UNITS[round]))
      && Value(And(ShiftRight(score, 24 - 8 * round), Mask(WORD_BITS, 0, 8))) == Digit(Value(score), UNITS[round])
  {
    ThresholdIsPrefix(bytes, round);
    ThresholdSpellsKey(bytes, round);
    if round < 4 {
      MaskCoversFixedBytes(round);
      RoundUnits(round);
      WordsMatch(score, ThresholdWord(bytes, round), MaskWord(round), 24 - 8 * round, UNITS[round]);
    }
  }

  lemma KeyParts(key: nat, unit: nat) returns (high: nat, byte: nat, low: nat)
    requires unit > 0
    ensures high == key / (BINS * unit) && byte == Digit(key, unit) && low < unit
    ensures key == high * (BINS * unit) + byte * unit + low
  {
    var d := key / unit;
    high, byte, low := d / BINS, d % BINS, key % unit;
    assert d * unit == (BINS * high + byte) * unit == high * (BINS * unit) + byte * unit;
    ScaledStep(byte, BINS, unit);
    QuotientAndRemainder(key, BINS * unit, high, byte * unit + low);
  }

  /** Matching the prefix and showing byte `b` is lying in one sub-interval. */
  lemma DigitInterval(key: nat, prefix: nat, unit: nat, b: nat)
    requires unit > 0 && b < BINS && prefix % (BINS * unit) == 0
    ensures Matches(key, prefix, unit) && Digit(key, unit) == b <==> prefix + b * unit <= key < prefix + b * unit + unit
  {
    var high, byte, low := KeyParts(key, unit);
    var span := BINS * unit;
    var q := prefix / span;
    assert prefix == q * span;
    ScaledStep(byte, BINS, unit);
    ScaledStep(b, BINS, unit);
    SameQuotient(high, q, span, byte * unit + low, b * unit);
    SameQuotient(byte, b, unit, low, 0);
    SpanContains(q * span, span, b * unit, unit, key);
  }

  /** Aligned blocks either coincide or do not meet. */
  lemma SameQuotient(a: nat, b: nat, m: nat, low: nat, offset: nat)
    requires low < m && offset < m
    ensures a == b <==> b * m <= a * m + low < b * m + m
    ensures a == b ==> (offset <= low <==> b * m + offset <= a * m + low)
  {
    if a < b { ScaledStep(a, b, m); }
    if b < a { ScaledStep(b, a, m); }
  }

  lemma SpanContains(start: nat, span: nat, offset: nat, width: nat, key: nat)
    requires offset + width <= span
    ensures start + offset <= key < start + offset + width ==> start <= key < start + span
  {
  }

  lemma SplitBetween(keys: seq<nat>, live: set<nat>, lo: nat, mid: nat, hi: nat)
    requires lo <= mid <= hi
    ensures |Between(keys, live, lo, hi)| == |Between(keys, live, lo, mid)| + |Between(keys, live, mid, hi)|
  {
    var low, high := Between(keys, live, lo, mid), Between(keys, live, mid, hi);
    assert Between(keys, live, lo, hi) == low + high;
    assert low !! high;
  }

  lemma {:induction false} HistogramTail(h: seq<nat>, keys: seq<nat>, live: set<nat>, prefix: nat, unit: nat, b: nat)
    requires IsHistogram(h, keys, live, prefix, unit) && b <= BINS
    ensures b * unit <= BINS * unit
    ensures TailSum(h, b) == |Between(keys, live, prefix + b * unit, prefix + BINS * unit)|
    decreases BINS - b
  {
    if b < BINS {
      HistogramTail(h, keys, live, prefix, unit, b + 1);
      assert (b + 1) * unit == b * unit + unit;
      SplitBetween(keys, live, prefix + b * unit, prefix + b * unit + unit, prefix + BINS * unit);
    } else {
      assert Between(keys, live, prefix + b * unit, prefix + BINS * unit) == {};
    }
  }

  /** A live rank is always bracketed by some bin. */
  lemma RankIsBracketed(h: seq<nat>, keys: seq<nat>, live: set<nat>, k: nat, prefix: nat, unit: nat, rank: nat)
    requires RadixInvariant(keys, live, k, prefix, BINS * unit, rank)
    requires IsHistogram(h, keys, live, prefix, unit)
    ensures 1 <= rank <= TailSum(h, 0)
  {
    HistogramTail(h, keys, live, prefix, unit, 0);
  }

  /** One round: fixing the bracketing byte keeps the invariant at a 256th of the span. */
  lemma RoundKeepsInvariant(
      h: seq<nat>, keys: seq<nat>, live: set<nat>, k: nat, prefix: nat, unit: nat, rank: nat, byte: nat)
    requires unit > 0
    requires RadixInvariant(keys, live, k, prefix, BINS * unit, rank)
    requires IsHistogram(h, keys, live, prefix, unit)
    requires Brackets(h, rank, byte)
    ensures RadixInvariant(keys, live, k, prefix + byte * unit, unit, rank - TailSum(h, byte + 1))
  {
    HistogramTail(h, keys, live, prefix, unit, byte);
    HistogramTail(h, keys, live, prefix, unit, byte + 1);
    assert (byte + 1) * unit == byte * unit + unit;
    var next := prefix + byte * unit;
    SplitBetween(keys, live, next + unit, prefix + BINS * unit, KEY_SPACE);
    AlignedPrefix(prefix, unit, byte);
  }

  lemma AlignedPrefix(prefix: nat, unit: nat, byte: nat)
    requires unit > 0 && prefix % (BINS * unit) == 0
    ensures (prefix + byte * unit) % unit == 0
  {
    var q := prefix / (BINS * unit);
    assert prefix == q * (BINS * unit) == (q * BINS) * unit;
    QuotientAndRemainder(prefix + byte * unit, unit, q * BINS + byte, 0);
  }

  /** Before the first round everything matches. */
  lemma InitialInvariant(keys: seq<nat>, live: set<nat>, k: nat)
    requires ValidKeys(keys, live) && 1 <= k <= |live|
    ensures RadixInvariant(keys, live, k, 0, KEY_SPACE, k)
  {
    assert Between(keys, live, 0, KEY_SPACE) == live;
    assert Between(keys, live, KEY_SPACE, KEY_SPACE) == {};
  }

  /** The k-th largest key and the number of its ties taken are determined by the keys. */
  lemma KthLargestIsUnique(keys: seq<nat>, live: set<nat>, k: nat, t: nat, ties: nat, t': nat, ties': nat)
    requires IsKthLargest(keys, live, k, t, ties) && IsKthLargest(keys, live, k, t', ties')
    ensures t == t' && ties == ties'
  {
    if t < t' {
      SplitBetween(keys, live, t + 1, t', KEY_SPACE);
      SplitBetween(keys, live, t', t' + 1, KEY_SPACE);
    }
    if t' < t {
      SplitBetween(keys, live, t' + 1, t, KEY_SPACE);
      SplitBetween(keys, live, t, t + 1, KEY_SPACE);
    }
  }

  // ---------- the kernels' histogram passes ----------

  method ClearHistogram(histogram: array<nat>)
    requires histogram.Length == BINS
    modifies histogram
    ensures forall b :: 0 <= b < BINS ==> histogram[b] == 0
  {
    forall b | 0 <= b < BINS {
      histogram[b] := 0;
    }
  }

  lemma CountOneMore(keys: seq<nat>, done: set<nat>, i: nat, prefix: nat, unit: nat)
    requires unit > 0 && prefix % (BINS * unit) == 0 && i < |keys| && i !in done
    ensures forall b :: 0 <= b < BINS ==>
      BinCount(keys, done + {i}, prefix, unit, b) ==
        BinCount(keys, done, prefix, unit, b) +
        (if Matches(keys[i], prefix, unit) && Digit(keys[i], unit) == b then 1 else 0)
  {
    forall b | 0 <= b < BINS
      ensures BinCount(keys, done + {i}, prefix, unit, b) ==
        BinCount(keys, done, prefix, unit, b) +
        (if Matches(keys[i], prefix, unit) && Digit(keys[i], unit) == b then 1 else 0)
    {
      DigitInterval(keys[i], prefix, unit, b);
      var already := Between(keys, done, prefix + b * unit, prefix + b * unit + unit);
      assert Between(keys, done + {i}, prefix + b * unit, prefix + b * unit + unit) ==
        if Matches(keys[i], prefix, unit) && Digit(keys[i], unit) == b then already + {i} else already;
    }
  }

  /** Threads visit the positions in any order, each adding one for a matching key. */
  method AtomicHistogramPass(histogram: array<nat>, keys: seq<nat>, positions: set<nat>, prefix: nat, unit: nat)
    requires histogram.Length == BINS
    requires unit > 0 && prefix % (BINS * unit) == 0
    requires ValidKeys(keys, positions)
    modifies histogram
    ensures forall b :: 0 <= b < BINS ==>
      histogram[b] == old(histogram[b]) + BinCount(keys, positions, prefix, unit, b)
  {
    var todo := positions;
    ghost var done: set<nat> := {};
    while todo != {}
      invariant todo !! done && todo + done == positions
      invariant forall b :: 0 <= b < BINS ==> histogram[b] == old(histogram[b]) + BinCount(keys, done, prefix, unit, b)
      decreases |todo|
    {
      var i :| i in todo;
      CountOneMore(keys, done, i, prefix, unit);
      todo, done := todo - {i}, done + {i};
      if Matches(keys[i], prefix, unit) {
        histogram[Digit(keys[i], unit)] := histogram[Digit(keys[i], unit)] + 1;
      }
    }
  }

  ghost function Flagged(flags: seq<bool>): set<nat> {
    set i | 0 <= i < |flags| && flags[i]
  }

  ghost function FlaggedIn(flags: seq<bool>, lo: nat, hi: nat): set<nat> {
    set i | lo <= i < hi && i < |flags| && flags[i]
  }

  lemma CountBlockMore(
      keys: seq<nat>, flags: seq<bool>, done: set<nat>, lo: nat, hi: nat, prefix: nat, unit: nat,
      active: seq<bool>, bins: seq<nat>)
    requires unit > 0 && prefix % (BINS * unit) == 0
    requires lo <= hi <= |keys| == |flags| == |active| == |bins|
    requires forall i :: i in done ==> i < lo || hi <= i
    requires forall i :: 0 <= i < |keys| ==>
      active[i] == (flags[i] && Matches(keys[i], prefix, unit)) && bins[i] == Digit(keys[i], unit)
    ensures forall b :: 0 <= b < BINS ==>
      BinCount(keys, done + FlaggedIn(flags, lo, hi), prefix, unit, b) ==
        BinCount(keys, done, prefix, unit, b) + |Peers(active, bins, lo, hi, b)|
  {
    forall b | 0 <= b < BINS
      ensures BinCount(keys, done + FlaggedIn(flags, lo, hi), prefix, unit, b) ==
        BinCount(keys, done, prefix, unit, b) + |Peers(active, bins, lo, hi, b)|
    {
      forall i | 0 <= i < |keys|
        ensures Matches(keys[i], prefix, unit) && Digit(keys[i], unit) == b <==>
          prefix + b * unit <= keys[i] < prefix + b * unit + unit
      {
        DigitInterval(keys[i], prefix, unit, b);
      }
      var already := Between(keys, done, prefix + b * unit, prefix + b * unit + unit);
      assert already !! Peers(active, bins, lo, hi, b);
      assert Between(keys, done + FlaggedIn(flags, lo, hi), prefix + b * unit, prefix + b * unit + unit) ==
        already + Peers(active, bins, lo, hi, b);
    }
  }

  /** The flagged positions whose 32-position block is not among `blocks`. */
  ghost function OutsideBlocks(flags: seq<bool>, blocks: set<nat>): set<nat> {
    set i | 0 <= i < |flags| && flags[i] && i / WARP_SIZE !in blocks
  }

  lemma OneBlockFewer(flags: seq<bool>, blocks: set<nat>, w: nat, lo: nat, hi: nat)
    requires w in blocks && lo == w * WARP_SIZE && hi == Min(lo + WARP_SIZE, |flags|)
    ensures OutsideBlocks(flags, blocks - {w}) == OutsideBlocks(flags, blocks) + FlaggedIn(flags, lo, hi)
    ensures forall i :: i in OutsideBlocks(flags, blocks) ==> i < lo || hi <= i
  {
    forall i | 0 <= i < |flags| ensures i / WARP_SIZE == w <==> lo <= i < hi {
    }
  }

  /** Warps visit their 32-position blocks in any order, each adding once per distinct bin. */
  method WarpHistogramPass(histogram: array<nat>, keys: seq<nat>, flags: seq<bool>, prefix: nat, unit: nat)
    requires histogram.Length == BINS
    requires unit > 0 && prefix % (BINS * unit) == 0 && |flags| == |keys|
    modifies histogram
    ensures forall b :: 0 <= b < BINS ==>
      histogram[b] == old(histogram[b]) + BinCount(keys, Flagged(flags), prefix, unit, b)
  {
    var active := seq(|keys|, i requires 0 <= i < |keys| => flags[i] && Matches(keys[i], prefix, unit));
    var bins := seq(|keys|, i requires 0 <= i < |keys| => Digit(keys[i], unit));
    var todo := Interval(0, (|keys| + WARP_SIZE - 1) / WARP_SIZE);
    assert OutsideBlocks(flags, todo) == {};
    while todo != {}
      invariant todo <= Interval(0, (|keys| + WARP_SIZE - 1) / WARP_SIZE)
      invariant forall b :: 0 <= b < BINS ==>
        histogram[b] == old(histogram[b]) + BinCount(keys, OutsideBlocks(flags, todo), prefix, unit, b)
      decreases |todo|
    {
      var w :| w in todo;
      var lo, hi := w * WARP_SIZE, Min(w * WARP_SIZE + WARP_SIZE, |keys|);
      OneBlockFewer(flags, todo, w, lo, hi);
      CountBlockMore(keys, flags, OutsideBlocks(flags, todo), lo, hi, prefix, unit, active, bins);
      WarpHistogramAdd(histogram, active, bins, lo, hi);
      todo := todo - {w};
    }
    assert OutsideBlocks(flags, todo) == Flagged(flags);
  }

  lemma DisjointBetween(keys: seq<nat>, a: set<nat>, b: set<nat>, lo: nat, hi: nat)
    requires a !! b
    ensures |Between(keys, a + b, lo, hi)| == |Between(keys, a, lo, hi)| + |Between(keys, b, lo, hi)|
  {
    assert Between(keys, a + b, lo, hi) == Between(keys, a, lo, hi) + Between(keys, b, lo, hi);
  }

  /** One histogram: the slot scan, then the spill when there is any. */
  method RoundHistogram(
      histogram: array<nat>, keys: seq<nat>, slots: set<nat>, spilled: set<nat>, ghost live: set<nat>, prefix: nat,
      unit: nat)
    requires histogram.Length == BINS && slots !! spilled && live == slots + spilled
    requires ValidKeys(keys, slots) && ValidKeys(keys, spilled)
    requires unit > 0 && prefix % (BINS * unit) == 0
    modifies histogram
    ensures IsHistogram(histogram[..], keys, live, prefix, unit)
  {
    ClearHistogram(histogram);
    AtomicHistogramPass(histogram, keys, slots, prefix, unit);
    if spilled != {} {
      AtomicHistogramPass(histogram, keys, spilled, prefix, unit);
    } else {
      assert live == slots;
    }
    forall b | 0 <= b < BINS
      ensures BinCount(keys, live, prefix, unit, b) ==
        BinCount(keys, slots, prefix, unit, b) + BinCount(keys, spilled, prefix, unit, b)
    {
      DisjointBetween(keys, slots, spilled, prefix + b * unit, prefix + b * unit + unit);
    }
  }

  /** Select the byte that brackets the rank and descend into its bin. */
  method DescendRound(
      histogram: seq<nat>, ghost keys: seq<nat>, ghost live: set<nat>, ghost k: nat, prefix: nat, unit: nat, rank: nat,
      ascending: bool)
    returns (prefix': nat, rank': nat)
    requires unit > 0 && RadixInvariant(keys, live, k, prefix, BINS * unit, rank)
    requires IsHistogram(histogram, keys, live, prefix, unit)
    ensures RadixInvariant(keys, live, k, prefix', unit, rank')
  {
    RankIsBracketed(histogram, keys, live, k, prefix, unit, rank);
    var found, byte, greater := SelectByte(histogram, rank, ascending);
    RoundKeepsInvariant(histogram, keys, live, k, prefix, unit, rank, byte);
    prefix', rank' := prefix + byte * unit, rank - greater;
  }

  /** Four rounds over the slot positions and then the spilled ones, one shared histogram. */
  method RadixRounds(
      histogram: array<nat>, keys: seq<nat>, slots: set<nat>, spilled: set<nat>, ghost live: set<nat>, k: nat)
    returns (threshold: nat, rank: nat)
    requires histogram.Length == BINS && slots !! spilled && live == slots + spilled
    requires ValidKeys(keys, live) && 1 <= k <= |live|
    modifies histogram
    ensures IsKthLargest(keys, live, k, threshold, rank)
  {
    threshold, rank := 0, k;
    InitialInvariant(keys, live, k);
    for round := 0 to 4
      invariant RadixInvariant(keys, live, k, threshold, if round == 4 then 1 else BINS * UNITS[round], rank)
    {
      RoundHistogram(histogram, keys, slots, spilled, live, threshold, UNITS[round]);
      threshold, rank := DescendRound(histogram[..], keys, live, k, threshold, UNITS[round], rank, false);
    }
  }

  /** The shared selection loop of the repair and sampling kernels. */
  method SelectScore(histogram: array<nat>, keys: seq<nat>, flags: seq<bool>, k: nat) returns (threshold: nat)
    requires histogram.Length == BINS && |flags| == |keys|
    requires ValidKeys(keys, Flagged(flags)) && 1 <= k <= |Flagged(flags)|
    modifies histogram
    ensures exists ties: nat :: IsKthLargest(keys, Flagged(flags), k, threshold, ties)
  {
    ghost var live := Flagged(flags);
    var rank := k;
    threshold := 0;
    InitialInvariant(keys, live, k);
    for round := 0 to 4
      invariant RadixInvariant(keys, live, k, threshold, if round == 4 then 1 else BINS * UNITS[round], rank)
    {
      ClearHistogram(histogram);
      WarpHistogramPass(histogram, keys, flags, threshold, UNITS[round]);
      threshold, rank := DescendRound(histogram[..], keys, live, k, threshold, UNITS[round], rank, true);
    }
    assert IsKthLargest(keys, live, k, threshold, rank);
  }
}
