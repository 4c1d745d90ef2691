/** The order-preserving map between binary32 scores and unsigned keys. A float is the
    number its 32 bits spell and the map is arithmetic on it; `OrderedWordIsKey` and
    `FloatWordIsFloat` show that the source's bit operations compute just that. */
module FloatKeys {
  import opened Exactness
  import opened RadixSelect
  import opened Words

  const SIGN: nat := 0x8000_0000
  const INFINITY: nat := 0x7F80_0000
  const NEGATIVE_INFINITY: nat := 0xFF80_0000
  const FRACTION: nat := 0x80_0000

  function Magnitude(bits: nat): (m: nat)
    requires bits < KEY_SPACE
    ensures m < SIGN
  {
    bits % SIGN
  }

  predicate IsNaN(bits: nat)
    requires bits < KEY_SPACE
  {
    Magnitude(bits) > INFINITY
  }

  /** Neither an infinity nor a NaN. */
  predicate IsFinite(bits: nat)
    requires bits < KEY_SPACE
  {
    Magnitude(bits) < INFINITY
  }

  function OrderedFloat(bits: nat): (key: nat)
    requires bits < KEY_SPACE
    ensures key < KEY_SPACE
  {
    var b := if Magnitude(bits) == 0 then 0 else bits;
    if b >= SIGN then KEY_SPACE - 1 - b else b + SIGN
  }

  function OrderedToFloat(key: nat): (bits: nat)
    requires key < KEY_SPACE
    ensures bits < KEY_SPACE
  {
    if key >= SIGN then key - SIGN else KEY_SPACE - 1 - key
  }

  // ---------- the bit operations behind the two maps ----------

  const TOP_BIT: Word := Mask(WORD_BITS, 31, 32)
  const LOW_BITS: Word := Mask(WORD_BITS, 0, 31)

  lemma WordSizes()
    ensures Pow2(31) == SIGN && Pow2(32) == KEY_SPACE
  {
    PowersOfTwo();
  }

  /** The word splits into its low 31 bits and its top bit. */
  lemma {:induction false} TopAndLow(word: Word)
    requires |word| == WORD_BITS
    ensures Value(word) < KEY_SPACE && Value(word[..31]) == Magnitude(Value(word))
    ensures Value(word) == Value(word[..31]) + if word[31] then SIGN else 0
  {
    WordSizes();
    ValueSplits(word, 31);
    assert word[31..] == [word[31]];
  }

  /** Testing the top bit is comparing with 2^31. */
  lemma {:induction false} SignBit(word: Word)
    requires |word| == WORD_BITS
    ensures And(word, TOP_BIT) != Zeros(WORD_BITS) <==> Value(word) >= SIGN
  {
    TopAndLow(word);
    assert And(word, TOP_BIT)[31] == word[31];
  }

  /** Clearing the top bit is the remainder modulo 2^31. */
  lemma {:induction false} MagnitudeBits(word: Word)
    requires |word| == WORD_BITS
    ensures Value(word) < KEY_SPACE && Value(And(word, LOW_BITS)) == Magnitude(Value(word))
  {
    TopAndLow(word);
    ValueOfMasked(word, 0, 31);
    assert word[0..31] == word[..31] && Pow2(0) == 1;
  }

  /** Flipping the top bit adds or subtracts 2^31. */
  lemma {:induction false} FlippedSign(word: Word)
    requires |word| == WORD_BITS
    ensures Value(Xor(word, TOP_BIT)) == if Value(word) >= SIGN then Value(word) - SIGN else Value(word) + SIGN
  {
    TopAndLow(word);
    TopAndLow(Xor(word, TOP_BIT));
    assert Xor(word, TOP_BIT)[..31] == word[..31];
  }

  /** Complementing a word subtracts it from 2^32 - 1. */
  lemma {:induction false} ComplementBits(word: Word)
    requires |word| == WORD_BITS
    ensures Value(Not(word)) == KEY_SPACE - 1 - Value(word)
  {
    WordSizes();
    ValueOfNot(word);
  }

  /** The source's `ordered_float` on the bits of a float. */
  function OrderedWord(word: Word): (ordered: Word)
    requires |word| == WORD_BITS
    ensures |ordered| == WORD_BITS
  {
    var bits := if And(word, LOW_BITS) == Zeros(WORD_BITS) then Zeros(WORD_BITS) else word;
    if And(bits, TOP_BIT) != Zeros(WORD_BITS) then Not(bits) else Xor(bits, TOP_BIT)
  }

  /** The source's `ordered_to_float`. */
  function FloatWord(ordered: Word): (word: Word)
    requires |ordered| == WORD_BITS
    ensures |word| == WORD_BITS
  {
    if And(ordered, TOP_BIT) != Zeros(WORD_BITS) then Xor(ordered, TOP_BIT) else Not(ordered)
  }

  lemma {:induction false} OrderedWordIsKey(word: Word)
    requires |word| == WORD_BITS
    ensures Value(word) < KEY_SPACE && Value(OrderedWord(word)) == OrderedFloat(Value(word))
  {
    MagnitudeBits(word);
    ZeroMeansZeros(And(word, LOW_BITS));
    ZeroMeansZeros(Zeros(WORD_BITS));
    var bits := if And(word, LOW_BITS) == Zeros(WORD_BITS) then Zeros(WORD_BITS) else word;
    SignBit(bits);
    FlippedSign(bits);
    ComplementBits(bits);
  }

  lemma {:induction false} FloatWordIsFloat(ordered: Word)
    requires |ordered| == WORD_BITS
    ensures Value(ordered) < KEY_SPACE && Value(FloatWord(ordered)) == OrderedToFloat(Value(ordered))
  {
    WordSizes();
    SignBit(ordered);
    FlippedSign(ordered);
    ComplementBits(ordered);
  }

  // ---------- the numbers the bits stand for ----------

  /** A magnitude in units of 2^-149, the spacing of the subnormal numbers
      (section 3.4 of IEEE 754-2019). */
  function Quanta(magnitude: nat): nat {
    var exponent, fraction := magnitude / FRACTION, magnitude % FRACTION;
    if exponent == 0 then fraction else (FRACTION + fraction) * Pow2(exponent - 1)
  }

  /** A finite number is its count of 2^-149 units. */
  datatype Number = NegativeInfinite | Finite(quanta: int) | PositiveInfinite

  /** The number a non-NaN binary32 word denotes. */
  function Denotes(bits: nat): Number
    requires bits < KEY_SPACE && !IsNaN(bits)
  {
    if bits == INFINITY then PositiveInfinite
    else if bits == NEGATIVE_INFINITY then NegativeInfinite
    else
      var size: int := Quanta(Magnitude(bits));
      Finite(if bits >= SIGN then -size else size)
  }

  /** Less-than on numbers (section 5.11 of IEEE 754-2019). */
  predicate Below(a: Number, b: Number) {
    match (a, b)
    case (NegativeInfinite, _) => b != NegativeInfinite
    case (_, PositiveInfinite) => a != PositiveInfinite
    case (Finite(x), Finite(y)) => x < y
    case _ => false
  }

  /** The gap between neighbours: the least positive number among the subnormal numbers and in
      the first binade above them, doubling with each binade after that. */
  lemma NextQuanta(m: nat)
    ensures Quanta(0) == 0
    ensures Quanta(m + 1) - Quanta(m) == Pow2(if m < 0x100_0000 then 0 else m / 0x80_0000 - 1)
  {
    var exponent, fraction := m / FRACTION, m % FRACTION;
    if fraction + 1 < FRACTION {
      assert m + 1 == exponent * FRACTION + (fraction + 1);
      assert (m + 1) / FRACTION == exponent && (m + 1) % FRACTION == fraction + 1;
    } else {
      assert m + 1 == (exponent + 1) * FRACTION;
      assert (m + 1) / FRACTION == exponent + 1 && (m + 1) % FRACTION == 0;
    }
  }

  /** A larger magnitude is a larger number. */
  lemma {:induction false} QuantaIncrease(a: nat, b: nat)
    requires a < b
    ensures Quanta(a) < Quanta(b)
  {
    NextQuanta(b - 1);
    if a < b - 1 { QuantaIncrease(a, b - 1); }
  }

  lemma QuantaCompare(a: nat, b: nat)
    ensures a < b <==> Quanta(a) < Quanta(b)
    ensures Quanta(a) == 0 <==> a == 0
  {
    if a < b { QuantaIncrease(a, b); }
    if b < a { QuantaIncrease(b, a); }
    if 0 < a { QuantaIncrease(0, a); }
  }

  /** The sign-magnitude reading of the bits. */
  function SignMagnitude(bits: nat): int
    requires bits < KEY_SPACE
  {
    if bits >= SIGN then -(Magnitude(bits) as int) else Magnitude(bits)
  }

  lemma KeysFollowSignMagnitude(a: nat, b: nat)
    requires a < KEY_SPACE && b < KEY_SPACE
    ensures OrderedFloat(a) < OrderedFloat(b) <==> SignMagnitude(a) < SignMagnitude(b)
    ensures OrderedFloat(a) == OrderedFloat(b) <==> SignMagnitude(a) == SignMagnitude(b)
    ensures SignMagnitude(a) == SignMagnitude(b) <==> a == b || (Magnitude(a) == 0 && Magnitude(b) == 0)
  {
  }

  lemma NumbersFollowSignMagnitude(a: nat, b: nat)
    requires a < KEY_SPACE && b < KEY_SPACE && !IsNaN(a) && !IsNaN(b)
    ensures Below(Denotes(a), Denotes(b)) <==> SignMagnitude(a) < SignMagnitude(b)
    ensures Denotes(a) == Denotes(b) <==> SignMagnitude(a) == SignMagnitude(b)
  {
    QuantaCompare(Magnitude(a), Magnitude(b));
    QuantaCompare(Magnitude(b), Magnitude(a));
  }

  /** The keys order the non-NaN floats as their numbers are ordered, and two floats share
      a key exactly when they are the same number: the two zeros, and nothing else. */
  lemma OrderEmbedding(a: nat, b: nat)
    requires a < KEY_SPACE && b < KEY_SPACE && !IsNaN(a) && !IsNaN(b)
    ensures OrderedFloat(a) < OrderedFloat(b) <==> Below(Denotes(a), Denotes(b))
    ensures OrderedFloat(a) == OrderedFloat(b) <==> Denotes(a) == Denotes(b)
    ensures OrderedFloat(a) == OrderedFloat(b) <==> a == b || (Magnitude(a) == 0 && Magnitude(b) == 0)
  {
    KeysFollowSignMagnitude(a, b);
    NumbersFollowSignMagnitude(a, b);
  }

  const NEGATIVE_INFINITY_KEY: nat := 0x007F_FFFF
  const POSITIVE_INFINITY_KEY: nat := 0xFF80_0000

  predicate IsFiniteKey(key: nat) {
    NEGATIVE_INFINITY_KEY < key < POSITIVE_INFINITY_KEY
  }

  /** The key of a number or an infinity. */
  predicate IsNumberKey(key: nat) {
    NEGATIVE_INFINITY_KEY <= key <= POSITIVE_INFINITY_KEY
  }

  /** No score is a NaN. */
  ghost predicate NumericScores(key: nat -> nat) {
    forall id :: IsNumberKey(key(id))
  }

  /** The keys strictly between those of the infinities are the finite floats; those outside
      them are the NaNs. */
  lemma FiniteKeys(bits: nat)
    requires bits < KEY_SPACE
    ensures OrderedFloat(NEGATIVE_INFINITY) == NEGATIVE_INFINITY_KEY && OrderedFloat(INFINITY) == POSITIVE_INFINITY_KEY
    ensures IsFinite(bits) <==> IsFiniteKey(OrderedFloat(bits))
    ensures IsNaN(bits) <==> !IsNumberKey(OrderedFloat(bits))
  {
  }

  /** Back and forth: a key is recovered from its float, and a float from its key except
      that the negative zero comes back positive. */
  lemma RoundTrip(bits: nat)
    requires bits < KEY_SPACE
    ensures OrderedToFloat(OrderedFloat(bits)) == if Magnitude(bits) == 0 then 0 else bits
    ensures !IsNaN(bits) ==> Denotes(OrderedToFloat(OrderedFloat(bits))) == Denotes(bits)
    ensures bits != KEY_SPACE - 1 ==> OrderedFloat(bits) > 0
  {
    if !IsNaN(bits) {
      OrderEmbedding(bits, OrderedToFloat(OrderedFloat(bits)));
    }
  }

  /** The reverse trip is the identity on every key but the one that would be the key of
      the negative zero, which no float has. */
  lemma KeyRoundTrip(key: nat)
    requires key < KEY_SPACE
    ensures OrderedFloat(OrderedToFloat(key)) == key <==> key != SIGN - 1
    ensures forall bits: nat :: bits < KEY_SPACE ==> OrderedFloat(bits) != SIGN - 1
  {
  }

  /** The score keys of a row of logits. */
  function LogitKeys(logits: nat -> nat): nat -> nat {
    (id: nat) => if logits(id) < KEY_SPACE then OrderedFloat(logits(id)) else 0
  }

  /** Every selected score is at least every unselected score of the range, as numbers. */
  ghost predicate IsExactRowOfLogits(logits: nat -> nat, row: seq<int>, lo: nat, hi: nat, k: nat)
    requires forall id :: logits(id) < KEY_SPACE && !IsNaN(logits(id))
  {
    && IsWellFormedRow(row, lo, hi, k)
    && forall i: nat, j: nat :: i in SelectedIds(row) && lo <= j < hi && j !in SelectedIds(row) ==>
      !Below(Denotes(logits(i)), Denotes(logits(j)))
  }

  lemma KeysCompare(logits: nat -> nat, i: nat, j: nat)
    requires logits(i) < KEY_SPACE && logits(j) < KEY_SPACE && !IsNaN(logits(i)) && !IsNaN(logits(j))
    ensures LogitKeys(logits)(j) <= LogitKeys(logits)(i) <==> !Below(Denotes(logits(i)), Denotes(logits(j)))
  {
    OrderEmbedding(logits(i), logits(j));
  }

  lemma KeysExactMeansScoresExact(logits: nat -> nat, row: seq<int>, lo: nat, hi: nat, k: nat)
    requires forall id :: logits(id) < KEY_SPACE && !IsNaN(logits(id))
    requires IsExactRow(LogitKeys(logits), row, lo, hi, k)
    ensures IsExactRowOfLogits(logits, row, lo, hi, k)
  {
    forall i: nat, j: nat | i in SelectedIds(row) && lo <= j < hi && j !in SelectedIds(row)
      ensures !Below(Denotes(logits(i)), Denotes(logits(j)))
    {
      KeysCompare(logits, i, j);
    }
  }

  lemma ScoresExactMeansKeysExact(logits: nat -> nat, row: seq<int>, lo: nat, hi: nat, k: nat)
    requires forall id :: logits(id) < KEY_SPACE && !IsNaN(logits(id))
    requires IsExactRowOfLogits(logits, row, lo, hi, k)
    ensures IsExactRow(LogitKeys(logits), row, lo, hi, k)
  {
    forall i: nat, j: nat | i in SelectedIds(row) && lo <= j < hi && j !in SelectedIds(row)
      ensures LogitKeys(logits)(j) <= LogitKeys(logits)(i)
    {
      KeysCompare(logits, i, j);
    }
  }

  /** Exactness over keys is exactness over the scores themselves. */
  lemma ExactnessOverScores(logits: nat -> nat, row: seq<int>, lo: nat, hi: nat, k: nat)
    requires forall id :: logits(id) < KEY_SPACE && !IsNaN(logits(id))
    ensures IsExactRow(LogitKeys(logits), row, lo, hi, k) <==> IsExactRowOfLogits(logits, row, lo, hi, k)
  {
    if IsExactRow(LogitKeys(logits), row, lo, hi, k) {
      KeysExactMeansScoresExact(logits, row, lo, hi, k);
    }
    if IsExactRowOfLogits(logits, row, lo, hi, k) {
      ScoresExactMeansKeysExact(logits, row, lo, hi, k);
    }
  }
}
