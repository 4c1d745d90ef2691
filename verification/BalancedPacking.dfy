/** Round-robin packing of whole documents into one token sequence. Pools are listed in the
    sorted order of their domain names. */
module BalancedPacking {
  import opened Arithmetic
  import opened Exactness
  import opened Outcomes

  /** Documents are handles; `Texts` gives a document's tokens. */
  type Document = nat

  type Texts = Document -> seq<int>

  /** A recorded document: where it came from and how many output tokens it accounts for. */
  datatype Packed = Packed(domain: nat, document: Document, used: nat, truncated: bool)

  datatype PackedTokens = PackedTokens(tokens: seq<int>, documents: seq<Packed>, counts: seq<nat>)

  datatype PackError = NonPositiveLength | NoDomains | Exhausted(remaining: nat) | WrongLength

  // ---------- what round-robin order means ----------

  /** The domain of the given visit: the list is rotated by the offset. */
  function DomainAt(offset: int, visit: nat, n: nat): (d: nat)
    requires n > 0
    ensures d < n
  {
    (offset % n + visit % n) % n
  }

  /** The position of domain `d` in the rotated list. */
  function PositionOf(offset: int, d: nat, n: nat): (v: nat)
    requires d < n
    ensures v < n
  {
    (d - offset % n) % n
  }

  lemma PositionIsInverse(offset: int, d: nat, n: nat, visit: nat)
    requires d < n
    ensures DomainAt(offset, visit, n) == d <==> PositionOf(offset, d, n) == visit % n
  {
    var o, w := offset % n, visit % n;
    assert (o + w) % n == if o + w < n then o + w else o + w - n by {
      if o + w >= n { QuotientAndRemainder(o + w, n, 1, o + w - n); } else { QuotientAndRemainder(o + w, n, 0, o + w); }
    }
    assert (d - o) % n == if d >= o then d - o else d - o + n by {
      if d >= o { QuotientAndRemainder(d - o, n, 0, d - o); } else { NegativeRemainder(d - o, n); }
    }
  }

  /** Visiting the domains in that order is going round the list that begins at the offset. */
  lemma OrderIsRotatedList(offset: int, visit: nat, n: nat)
    requires n > 0
    ensures
      var k, domains: seq<nat> := offset % n, seq(n, i => i);
      (domains[k..] + domains[..k])[visit % n] == DomainAt(offset, visit, n)
  {
    var o, w := offset % n, visit % n;
    if o + w >= n { QuotientAndRemainder(o + w, n, 1, o + w - n); } else { QuotientAndRemainder(o + w, n, 0, o + w); }
  }

  lemma NegativeRemainder(a: int, n: nat)
    requires a < 0 < a + n
    ensures a % n == a + n
  {
    assert a == (-1) * n + (a + n);
  }

  /** How many documents of domain `d` the first `visits` visits take. */
  function Taken(pools: seq<seq<Document>>, offset: int, visits: nat, d: nat): nat
    requires d < |pools|
  {
    Min(|pools[d]|, VisitsTo(visits, PositionOf(offset, d, |pools|), |pools|))
  }

  /** The documents taken by the first `visits` visits, in order: visit number c takes the
      (c / n)-th document of its domain, if there is one. */
  function Schedule(pools: seq<seq<Document>>, offset: int, visits: nat): seq<(nat, Document)>
    requires |pools| > 0
  {
    if visits == 0 then []
    else
      var c, d := visits - 1, DomainAt(offset, visits - 1, |pools|);
      Schedule(pools, offset, c) + if c / |pools| < |pools[d]| then [(d, pools[d][c / |pools|])] else []
  }

  /** No visit has found the domain's pool empty. */
  predicate NeverFoundEmpty(pools: seq<seq<Document>>, offset: int, visits: nat, d: nat)
    requires d < |pools|
  {
    VisitsTo(visits, PositionOf(offset, d, |pools|), |pools|) <= |pools[d]|
  }

  /** Fairness: while neither pool has been found empty two domains are at most one document
      apart, and in any case a domain more than one behind has run out. */
  lemma TakenIsBalanced(pools: seq<seq<Document>>, offset: int, visits: nat, d: nat, e: nat)
    requires d < |pools| && e < |pools|
    ensures NeverFoundEmpty(pools, offset, visits, d) && NeverFoundEmpty(pools, offset, visits, e) ==>
      -1 <= Taken(pools, offset, visits, d) - Taken(pools, offset, visits, e) <= 1
    ensures Taken(pools, offset, visits, d) < Taken(pools, offset, visits, e) - 1 ==>
      Taken(pools, offset, visits, d) == |pools[d]|
  {
  }

  // ---------- tokens ----------

  /** Output tokens a whole document accounts for: its own and the two markers. */
  function Need(document: Document, text: Texts): nat {
    |text(document)| + 2
  }

  /** The need of the documents from position `k` on. */
  function NeedFrom(pool: seq<Document>, k: nat, text: Texts): nat
    decreases |pool| - k
  {
    if k >= |pool| then 0 else Need(pool[k], text) + NeedFrom(pool, k + 1, text)
  }

  lemma {:induction false} NeedShifts(pool: seq<Document>, k: nat, text: Texts)
    requires pool != []
    ensures NeedFrom(pool, k + 1, text) == NeedFrom(pool[1..], k, text)
    decreases |pool| - k
  {
    if k + 1 < |pool| {
      NeedShifts(pool, k + 1, text);
    }
  }

  function TotalNeed(pools: seq<seq<Document>>, text: Texts): nat {
    if pools == [] then 0 else TotalNeed(pools[..|pools| - 1], text) + NeedFrom(pools[|pools| - 1], 0, text)
  }

  lemma {:induction false} PopNeed(pools: seq<seq<Document>>, d: nat, text: Texts)
    requires d < |pools| && pools[d] != []
    ensures TotalNeed(pools, text) == TotalNeed(pools[d := pools[d][1..]], text) + Need(pools[d][0], text)
  {
    var popped := pools[d := pools[d][1..]];
    var n := |pools|;
    if d == n - 1 {
      assert popped[..n - 1] == pools[..n - 1];
      NeedShifts(pools[d], 0, text);
    } else {
      assert popped[..n - 1] == pools[..n - 1][d := pools[d][1..]];
      PopNeed(pools[..n - 1], d, text);
    }
  }

  lemma {:induction false} EmptyNeed(pools: seq<seq<Document>>, text: Texts)
    requires forall d :: 0 <= d < |pools| ==> pools[d] == []
    ensures TotalNeed(pools, text) == 0
  {
    if pools != [] {
      EmptyNeed(pools[..|pools| - 1], text);
    }
  }

  /** What one consumed document adds: a lone end marker when only one place was left. */
  function Contribution(p: Packed, bos: int, eos: int, text: Texts): (tokens: seq<int>)
    requires 1 <= p.used <= Need(p.document, text)
    ensures |tokens| == p.used
  {
    if p.used == 1 then [eos] else [bos] + text(p.document)[..p.used - 2] + [eos]
  }

  predicate Fits(log: seq<Packed>, text: Texts) {
    forall i :: 0 <= i < |log| ==> 1 <= log[i].used <= Need(log[i].document, text)
  }

  /** The tokens of each log entry. */
  type Pieces = Packed -> seq<int>

  function PieceOf(bos: int, eos: int, text: Texts): Pieces {
    (p: Packed) => if 1 <= p.used <= Need(p.document, text) then Contribution(p, bos, eos, text) else []
  }

  ghost predicate ArePieces(piece: Pieces, bos: int, eos: int, text: Texts) {
    && (forall p: Packed {:trigger piece(p)} :: 1 <= p.used <= Need(p.document, text) ==> |piece(p)| == p.used)
    && forall p: Packed {:trigger Contribution(p, bos, eos, text)} :: 1 <= p.used <= Need(p.document, text) ==>
         piece(p) == Contribution(p, bos, eos, text)
  }

  function Flatten(log: seq<Packed>, piece: Pieces): seq<int> {
    if log == [] then [] else Flatten(log[..|log| - 1], piece) + piece(log[|log| - 1])
  }

  /** The tokens of the log that belong to domain `d`. */
  function UsedBy(log: seq<Packed>, d: nat): nat {
    if log == [] then 0 else UsedBy(log[..|log| - 1], d) + if log[|log| - 1].domain == d then log[|log| - 1].used else 0
  }

  // ---------- the packing loop ----------

  /** The log lists the scheduled documents in order, each but the last whole. */
  ghost predicate IsShape(log: seq<Packed>, scheduled: seq<(nat, Document)>, text: Texts) {
    && |log| == |scheduled| && Fits(log, text)
    && (forall i :: 0 <= i < |log| ==> (log[i].domain, log[i].document) == scheduled[i])
    && (forall i :: 0 <= i < |log| ==> log[i].truncated == (log[i].used < Need(log[i].document, text)))
    && forall i :: 0 <= i < |log| - 1 ==> !log[i].truncated
  }

  /** The output joins the log's contributions and the counts divide it by domain. */
  ghost predicate IsTotal(log: seq<Packed>, piece: Pieces, output: seq<int>, counts: seq<nat>) {
    && output == Flatten(log, piece)
    && (forall d :: 0 <= d < |counts| ==> counts[d] == UsedBy(log, d))
    && SumFirst(counts, |counts|) == |output|
  }

  /** A lone end marker records no document. */
  function Recorded(log: seq<Packed>): seq<Packed> {
    if log != [] && log[|log| - 1].used == 1 then log[..|log| - 1] else log
  }

  ghost predicate AllWhole(log: seq<Packed>) {
    forall i :: 0 <= i < |log| ==> !log[i].truncated
  }

  lemma ShapeGrows(log: seq<Packed>, scheduled: seq<(nat, Document)>, text: Texts, p: Packed)
    requires IsShape(log, scheduled, text) && AllWhole(log)
    requires 1 <= p.used <= Need(p.document, text) && p.truncated == (p.used < Need(p.document, text))
    ensures IsShape(log + [p], scheduled + [(p.domain, p.document)], text)
  {
  }

  lemma TotalGrows(log: seq<Packed>, piece: Pieces, output: seq<int>, counts: seq<nat>, p: Packed)
    requires IsTotal(log, piece, output, counts) && p.domain < |counts| && |piece(p)| == p.used
    ensures IsTotal(log + [p], piece, output + piece(p), counts[p.domain := counts[p.domain] + p.used])
  {
    var longer := log + [p];
    assert longer[..|longer| - 1] == log && longer[|longer| - 1] == p;
    SumUpdate(counts, |counts|, p.domain, p.used);
  }

  // ---------- which lengths cut a document ----------

  /** Tokens that the scheduled documents need to go in whole. */
  function NeedOf(scheduled: seq<(nat, Document)>, text: Texts): nat {
    if scheduled == [] then 0
    else NeedOf(scheduled[..|scheduled| - 1], text) + Need(scheduled[|scheduled| - 1].1, text)
  }

  /** Tokens that the log accounts for. */
  function UsedTotal(log: seq<Packed>): nat {
    if log == [] then 0 else UsedTotal(log[..|log| - 1]) + log[|log| - 1].used
  }

  /** Some number of visits takes documents that need exactly `total` tokens. */
  ghost predicate IsBoundary(pools: seq<seq<Document>>, offset: int, total: int, text: Texts)
    requires |pools| > 0
  {
    exists v: nat :: NeedOf(Schedule(pools, offset, v), text) == total
  }

  lemma {:induction false} UsedIsLength(log: seq<Packed>, bos: int, eos: int, text: Texts)
    requires Fits(log, text)
    ensures UsedTotal(log) == |Flatten(log, PieceOf(bos, eos, text))|
  {
    if log != [] {
      UsedIsLength(log[..|log| - 1], bos, eos, text);
    }
  }

  /** One entry in the output, from position `at` on: the two markers around what was taken of
      the document's text, or a lone end marker. */
  ghost predicate EntryAt(tokens: seq<int>, at: nat, p: Packed, bos: int, eos: int, text: Texts) {
    && 1 <= p.used <= |text(p.document)| + 2 && at + p.used <= |tokens|
    && (p.truncated <==> p.used < |text(p.document)| + 2)
    && (p.used == 1 ==> tokens[at] == eos)
    && (p.used >= 2 ==>
          && tokens[at] == bos && tokens[at + p.used - 1] == eos
          && tokens[at + 1..at + p.used - 1] == text(p.document)[..p.used - 2])
  }

  lemma PieceIsEntry(before: seq<int>, p: Packed, bos: int, eos: int, text: Texts)
    requires 1 <= p.used <= Need(p.document, text) && (p.truncated <==> p.used < Need(p.document, text))
    ensures EntryAt(before + PieceOf(bos, eos, text)(p), |before|, p, bos, eos, text)
  {
    var at, tokens := |before|, before + Contribution(p, bos, eos, text);
    if p.used >= 2 {
      assert tokens[at + 1..at + p.used - 1] == text(p.document)[..p.used - 2];
    }
  }

  lemma EntryStays(tokens: seq<int>, more: seq<int>, at: nat, p: Packed, bos: int, eos: int, text: Texts)
    requires EntryAt(tokens, at, p, bos, eos, text)
    ensures EntryAt(tokens + more, at, p, bos, eos, text)
  {
    if p.used >= 2 {
      assert (tokens + more)[at + 1..at + p.used - 1] == tokens[at + 1..at + p.used - 1];
    }
  }

  lemma {:induction false} FlattenAround(log: seq<Packed>, piece: Pieces, i: nat) returns (rest: seq<int>)
    requires i < |log|
    ensures Flatten(log, piece) == Flatten(log[..i], piece) + piece(log[i]) + rest
  {
    if i == |log| - 1 {
      rest := [];
    } else {
      var front := log[..|log| - 1];
      rest := FlattenAround(front, piece, i);
      assert front[..i] == log[..i];
      rest := rest + piece(log[|log| - 1]);
    }
  }

  /** Each entry's tokens stand where the entries before it end. */
  lemma {:induction false} EntriesInOutput(log: seq<Packed>, bos: int, eos: int, text: Texts, i: nat)
    requires Fits(log, text) && i < |log|
    requires forall j :: 0 <= j < |log| ==> log[j].truncated == (log[j].used < Need(log[j].document, text))
    ensures EntryAt(Flatten(log, PieceOf(bos, eos, text)), UsedTotal(log[..i]), log[i], bos, eos, text)
  {
    var piece, before := PieceOf(bos, eos, text), Flatten(log[..i], PieceOf(bos, eos, text));
    var rest := FlattenAround(log, piece, i);
    UsedIsLength(log[..i], bos, eos, text);
    PieceIsEntry(before, log[i], bos, eos, text);
    EntryStays(before + piece(log[i]), rest, |before|, log[i], bos, eos, text);
  }

  /** Position `p` of the output belongs to entry `i`, which is of domain `d`. */
  ghost predicate Owns(log: seq<Packed>, i: nat, d: nat, p: nat) {
    i < |log| && log[i].domain == d && UsedTotal(log[..i]) <= p < UsedTotal(log[..i]) + log[i].used
  }

  ghost predicate IsOfDomain(log: seq<Packed>, d: nat, p: nat) {
    exists i: nat :: Owns(log, i, d, p)
  }

  /** The output positions of one domain. */
  ghost function PositionsOf(log: seq<Packed>, d: nat): set<nat> {
    set p: nat | p < UsedTotal(log) && IsOfDomain(log, d, p)
  }

  /** Those of the last entry, if it is of the domain. */
  ghost function OwnPositions(log: seq<Packed>, d: nat): set<nat>
    requires log != []
  {
    if log[|log| - 1].domain == d then Interval(UsedTotal(log[..|log| - 1]), UsedTotal(log)) else {}
  }

  lemma {:induction false} OwnsInFront(log: seq<Packed>, i: nat, d: nat, p: nat)
    requires log != []
    ensures Owns(log, i, d, p) <==>
      if i == |log| - 1 then p in OwnPositions(log, d)
      else Owns(log[..|log| - 1], i, d, p)
  {
    if i < |log| - 1 {
      assert log[..|log| - 1][..i] == log[..i];
    }
  }

  /** A domain's count is the number of its output positions. */
  lemma {:induction false} UsedByCountsPositions(log: seq<Packed>, d: nat)
    ensures UsedBy(log, d) == |PositionsOf(log, d)|
  {
    if log == [] {
      assert PositionsOf(log, d) == {};
    } else {
      var front := log[..|log| - 1];
      UsedByCountsPositions(front, d);
      var own, earlier := OwnPositions(log, d), PositionsOf(front, d);
      var all := PositionsOf(log, d);
      forall p | p in all ensures p in earlier + own {
        PositionInFront(log, d, p);
      }
      forall p | p in earlier ensures p in all {
        PositionInFront(log, d, p);
      }
      forall p | p in own ensures p in all {
        PositionInFront(log, d, p);
      }
      assert all == earlier + own && earlier !! own;
      assert |own| == if log[|log| - 1].domain == d then log[|log| - 1].used else 0;
    }
  }

  lemma {:induction false} PositionInFront(log: seq<Packed>, d: nat, p: nat)
    requires log != []
    ensures p in PositionsOf(log, d) <==> p in PositionsOf(log[..|log| - 1], d) || p in OwnPositions(log, d)
  {
    var front, n := log[..|log| - 1], |log| - 1;
    OwnsInFront(log, n, d, p);
    assert UsedTotal(log) == UsedTotal(front) + log[n].used;
    if p in OwnPositions(log, d) {
      assert Owns(log, n, d, p);
    }
    if p in PositionsOf(log, d) {
      var i: nat :| Owns(log, i, d, p);
      OwnsInFront(log, i, d, p);
      if i < n {
        OwnedIsInside(front, i, d, p);
        assert IsOfDomain(front, d, p);
      }
    }
    if p in PositionsOf(front, d) {
      var i: nat :| Owns(front, i, d, p);
      OwnsInFront(log, i, d, p);
      assert Owns(log, i, d, p);
    }
  }

  lemma {:induction false} OwnedIsInside(log: seq<Packed>, i: nat, d: nat, p: nat)
    requires Owns(log, i, d, p)
    ensures p < UsedTotal(log)
  {
    assert UsedTotal(log) == UsedTotal(log[..|log| - 1]) + log[|log| - 1].used;
    if i < |log| - 1 {
      OwnsInFront(log, i, d, p);
      OwnedIsInside(log[..|log| - 1], i, d, p);
    }
  }

  lemma OutputFacts(
      log: seq<Packed>, scheduled: seq<(nat, Document)>, bos: int, eos: int, text: Texts, counts: seq<nat>)
    requires IsShape(log, scheduled, text) && forall d :: 0 <= d < |counts| ==> counts[d] == UsedBy(log, d)
    ensures
      var tokens := Flatten(log, PieceOf(bos, eos, text));
      forall i {:trigger EntryAt(tokens, UsedTotal(log[..i]), log[i], bos, eos, text)} ::
        0 <= i < |log| ==> EntryAt(tokens, UsedTotal(log[..i]), log[i], bos, eos, text)
    ensures forall d :: 0 <= d < |counts| ==> counts[d] == |PositionsOf(log, d)|
  {
    forall i | 0 <= i < |log|
      ensures EntryAt(Flatten(log, PieceOf(bos, eos, text)), UsedTotal(log[..i]), log[i], bos, eos, text)
    {
      EntriesInOutput(log, bos, eos, text, i);
    }
    forall d | 0 <= d < |counts| ensures counts[d] == |PositionsOf(log, d)| {
      UsedByCountsPositions(log, d);
    }
  }

  /** Whole documents use what they need. */
  lemma {:induction false} WholeUse(log: seq<Packed>, scheduled: seq<(nat, Document)>, text: Texts)
    requires IsShape(log, scheduled, text) && AllWhole(log)
    ensures UsedTotal(log) == NeedOf(scheduled, text)
  {
    if log != [] {
      var n := |log| - 1;
      assert log[n].document == scheduled[n].1 && !log[n].truncated;
      WholeUse(log[..n], scheduled[..n], text);
    }
  }

  lemma {:induction false} NeedGrows(scheduled: seq<(nat, Document)>, m: nat, text: Texts)
    requires m <= |scheduled|
    ensures NeedOf(scheduled[..m], text) <= NeedOf(scheduled, text)
  {
    if m < |scheduled| {
      var shorter := scheduled[..|scheduled| - 1];
      assert shorter[..m] == scheduled[..m];
      NeedGrows(shorter, m, text);
    } else {
      assert scheduled[..m] == scheduled;
    }
  }

  /** Earlier visits take a prefix of what later ones take. */
  lemma {:induction false} ScheduleGrows(pools: seq<seq<Document>>, offset: int, v: nat, w: nat)
    requires |pools| > 0 && v <= w
    ensures Schedule(pools, offset, v) <= Schedule(pools, offset, w)
  {
    if v < w {
      ScheduleGrows(pools, offset, v, w - 1);
    }
  }

  /** Every prefix of the schedule is what some number of visits takes. */
  lemma {:induction false} PrefixIsSchedule(pools: seq<seq<Document>>, offset: int, visits: nat, m: nat)
    returns (v: nat)
    requires |pools| > 0 && m <= |Schedule(pools, offset, visits)|
    ensures Schedule(pools, offset, v) == Schedule(pools, offset, visits)[..m]
  {
    if m == |Schedule(pools, offset, visits)| {
      v := visits;
    } else {
      v := PrefixIsSchedule(pools, offset, visits - 1, m);
    }
  }

  lemma PrefixNeed(scheduled: seq<(nat, Document)>, other: seq<(nat, Document)>, m: nat, text: Texts)
    requires m < |scheduled| && (scheduled <= other || other <= scheduled)
    ensures NeedOf(other, text) <= NeedOf(scheduled[..m], text) ||
      NeedOf(scheduled[..m + 1], text) <= NeedOf(other, text)
  {
    if |other| <= m {
      assert other == scheduled[..m][..|other|];
      NeedGrows(scheduled[..m], |other|, text);
    } else {
      assert scheduled[..m + 1] == other[..m + 1];
      NeedGrows(other, m + 1, text);
    }
  }

  /** No boundary falls strictly inside the last scheduled document. */
  lemma NoBoundaryInside(pools: seq<seq<Document>>, offset: int, visits: nat, v: nat, before: nat, text: Texts)
    requires |pools| > 0 && Schedule(pools, offset, visits) != []
    requires before == NeedOf(Schedule(pools, offset, visits)[..|Schedule(pools, offset, visits)| - 1], text)
    ensures
      var need := NeedOf(Schedule(pools, offset, v), text);
      need <= before || NeedOf(Schedule(pools, offset, visits), text) <= need
  {
    var scheduled := Schedule(pools, offset, visits);
    if v <= visits { ScheduleGrows(pools, offset, v, visits); } else { ScheduleGrows(pools, offset, visits, v); }
    assert scheduled[..|scheduled| - 1 + 1] == scheduled;
    PrefixNeed(scheduled, Schedule(pools, offset, v), |scheduled| - 1, text);
  }

  /** What the last entry got, against what its document needs. */
  lemma LastEntry(log: seq<Packed>, scheduled: seq<(nat, Document)>, text: Texts)
    returns (before: nat, used: nat, need: nat)
    requires IsShape(log, scheduled, text) && log != []
    ensures before == NeedOf(scheduled[..|log| - 1], text) && before + need == NeedOf(scheduled, text)
    ensures used == log[|log| - 1].used && before + used == UsedTotal(log) && 1 <= used <= need
    ensures AllWhole(log) <==> used == need
    ensures Recorded(log) == (if used == 1 then log[..|log| - 1] else log)
  {
    var n := |log| - 1;
    WholeUse(log[..n], scheduled[..n], text);
    before, used, need := NeedOf(scheduled[..n], text), log[n].used, Need(log[n].document, text);
    assert (log[n].domain, log[n].document) == scheduled[n];
  }

  /** Around the last scheduled document the boundaries are its two ends. */
  lemma BoundariesAtLast(pools: seq<seq<Document>>, offset: int, visits: nat, before: nat, total: nat, text: Texts)
    requires |pools| > 0 && Schedule(pools, offset, visits) != []
    requires before == NeedOf(Schedule(pools, offset, visits)[..|Schedule(pools, offset, visits)| - 1], text)
    requires before < total <= NeedOf(Schedule(pools, offset, visits), text)
    ensures IsBoundary(pools, offset, total, text) <==> total == NeedOf(Schedule(pools, offset, visits), text)
    ensures IsBoundary(pools, offset, total - 1, text) <==> total - 1 == before
  {
    var w := PrefixIsSchedule(pools, offset, visits, |Schedule(pools, offset, visits)| - 1);
    assert NeedOf(Schedule(pools, offset, w), text) == before;
    if IsBoundary(pools, offset, total, text) {
      var v: nat :| NeedOf(Schedule(pools, offset, v), text) == total;
      NoBoundaryInside(pools, offset, visits, v, before, text);
    }
    if IsBoundary(pools, offset, total - 1, text) {
      var v: nat :| NeedOf(Schedule(pools, offset, v), text) == total - 1;
      NoBoundaryInside(pools, offset, visits, v, before, text);
    }
  }

  /** The last document goes in whole exactly when the length is a boundary, and is popped
      without a record exactly when the length is one more than a boundary. */
  lemma LengthDecidesLast(
      log: seq<Packed>, scheduled: seq<(nat, Document)>, pools: seq<seq<Document>>, offset: int, visits: nat,
      text: Texts)
    requires |pools| > 0 && log != []
    requires scheduled == Schedule(pools, offset, visits) && IsShape(log, scheduled, text)
    ensures AllWhole(log) <==> IsBoundary(pools, offset, UsedTotal(log), text)
    ensures Recorded(log) == log <==> !IsBoundary(pools, offset, UsedTotal(log) - 1, text)
    ensures UsedTotal(Recorded(log)) == UsedTotal(log) - if Recorded(log) == log then 0 else 1
  {
    var before, used, need := LastEntry(log, scheduled, text);
    BoundariesAtLast(pools, offset, visits, before, before + used, text);
  }

  /** Two documents of two tokens each, in one pool. */
  const TWO_DOCUMENTS: seq<seq<Document>> := [[0, 1]]

  function TwoTokens(): Texts {
    (document: Document) => [7, 8]
  }

  /** The first visit takes the first of them, which needs four tokens. */
  lemma FirstOfTwo(scheduled: seq<(nat, Document)>)
    requires scheduled == Schedule(TWO_DOCUMENTS, 0, 1)
    ensures scheduled == [(0, 0)] && NeedOf(scheduled, TwoTokens()) == 4 && NeedOf(scheduled[..0], TwoTokens()) == 0
  {
    assert Schedule(TWO_DOCUMENTS, 0, 0) == [];
    assert scheduled == [(0, 0)];
  }

  lemma TwoNeedEight()
    ensures TotalNeed(TWO_DOCUMENTS, TwoTokens()) == 8
  {
    assert TWO_DOCUMENTS[..0] == [];
    assert NeedFrom([0, 1], 1, TwoTokens()) == 4;
  }

  /** Three tokens of them are not whole documents, whatever the visits. */
  lemma CutDocument(log: seq<Packed>, visits: nat)
    requires IsShape(log, Schedule(TWO_DOCUMENTS, 0, visits), TwoTokens()) && UsedTotal(log) == 3
    ensures 3 <= TotalNeed(TWO_DOCUMENTS, TwoTokens()) && !AllWhole(log)
  {
    TwoNeedEight();
    FirstOfTwo(Schedule(TWO_DOCUMENTS, 0, 1));
    BoundariesAtLast(TWO_DOCUMENTS, 0, 1, 0, 3, TwoTokens());
    LengthDecidesLast(log, Schedule(TWO_DOCUMENTS, 0, visits), TWO_DOCUMENTS, 0, visits, TwoTokens());
  }

  /** Five tokens consume the second document and record only the first. */
  lemma UnrecordedDocument(log: seq<Packed>, visits: nat)
    requires IsShape(log, Schedule(TWO_DOCUMENTS, 0, visits), TwoTokens()) && UsedTotal(log) == 5
    ensures 5 <= TotalNeed(TWO_DOCUMENTS, TwoTokens()) && Recorded(log) != log && UsedTotal(Recorded(log)) == 4
  {
    TwoNeedEight();
    FirstOfTwo(Schedule(TWO_DOCUMENTS, 0, 1));
    LengthDecidesLast(log, Schedule(TWO_DOCUMENTS, 0, visits), TWO_DOCUMENTS, 0, visits, TwoTokens());
  }

  /** What is left of a pool after `taken` pops. */
  function Rest(pool: seq<Document>, taken: nat): seq<Document> {
    if taken == 0 || pool == [] then pool else Rest(pool[1..], taken - 1)
  }

  /** Pops consume a prefix. */
  lemma {:induction false} RestIsSuffix(pool: seq<Document>, taken: nat)
    requires taken <= |pool|
    ensures Rest(pool, taken) == pool[taken..]
  {
    if taken > 0 {
      RestIsSuffix(pool[1..], taken - 1);
    }
  }

  /** The pools after `visits` visits. */
  ghost predicate PoolsAfter(left: seq<seq<Document>>, pools: seq<seq<Document>>, offset: int, visits: nat) {
    && |left| == |pools|
    && forall d :: 0 <= d < |pools| ==> left[d] == Rest(pools[d], Taken(pools, offset, visits, d))
  }

  /** A visit takes the first document left of its domain, if any. */
  lemma VisitTakesNext(left: seq<seq<Document>>, pools: seq<seq<Document>>, offset: int, visits: nat)
    requires |pools| > 0 && PoolsAfter(left, pools, offset, visits)
    ensures
      var d := DomainAt(offset, visits, |pools|);
      && (left[d] == [] <==> |pools[d]| <= visits / |pools|)
      && (left[d] != [] ==> left[d][0] == pools[d][visits / |pools|])
      && PoolsAfter(if left[d] == [] then left else left[d := left[d][1..]], pools, offset, visits + 1)
      && Schedule(pools, offset, visits + 1) ==
         Schedule(pools, offset, visits) + if left[d] == [] then [] else [(d, left[d][0])]
  {
    var n, d := |pools|, DomainAt(offset, visits, |pools|);
    PositionIsInverse(offset, d, n, visits);
    RestIsSuffix(pools[d], Taken(pools, offset, visits, d));
    RestIsSuffix(pools[d], Taken(pools, offset, visits + 1, d));
    forall e | 0 <= e < n
      ensures VisitsTo(visits + 1, PositionOf(offset, e, n), n) ==
        VisitsTo(visits, PositionOf(offset, e, n), n) + if e == d then 1 else 0
    {
      OneMoreVisit(visits, PositionOf(offset, e, n), n);
      PositionIsInverse(offset, e, n, visits);
    }
  }

  /** Token accounting: until the length is reached every document went in whole. */
  ghost predicate IsProgress(
      log: seq<Packed>, documents: seq<Packed>, produced: nat, length: nat, need: nat, needLeft: nat)
  {
    && documents == Recorded(log) && produced <= length
    && (produced < length ==> need == produced + needLeft && documents == log && AllWhole(log))
    && (produced == length ==> length <= need)
  }

  /** Document and token accounting of a partly packed sequence. */
  ghost predicate Books(
      scheduled: seq<(nat, Document)>, need: nat, needLeft: nat, length: nat, piece: Pieces, text: Texts,
      log: seq<Packed>, output: seq<int>, documents: seq<Packed>, counts: seq<nat>)
  {
    && IsShape(log, scheduled, text) && IsTotal(log, piece, output, counts)
    && IsProgress(log, documents, |output|, length, need, needLeft)
  }

  lemma ProgressStep(
      log: seq<Packed>, documents: seq<Packed>, produced: nat, length: nat, need: nat, needLeft: nat, entry: Packed,
      text: Texts)
    requires IsProgress(log, documents, produced, length, need, needLeft) && produced < length
    requires Need(entry.document, text) <= needLeft && entry.used == Min(Need(entry.document, text), length - produced)
    requires entry.truncated == (length - produced < Need(entry.document, text))
    ensures IsProgress(log + [entry], if length - produced == 1 then documents else documents + [entry],
                       produced + entry.used, length, need, needLeft - Need(entry.document, text))
  {
    assert (log + [entry])[..|log|] == log;
  }

  /** What is recorded for the next document. */
  function EntryFor(document: Document, d: nat, remaining: nat, text: Texts): Packed
    requires remaining > 0
  {
    Packed(d, document, Min(Need(document, text), remaining), remaining < Need(document, text))
  }

  /** Packing one more document keeps the books. */
  lemma BooksStep(
      scheduled: seq<(nat, Document)>, need: nat, needLeft: nat, length: nat, piece: Pieces, text: Texts,
      log: seq<Packed>, output: seq<int>, documents: seq<Packed>, counts: seq<nat>, d: nat, document: Document,
      entry: Packed,
      output': seq<int>, documents': seq<Packed>, counts': seq<nat>)
    requires Books(scheduled, need, needLeft, length, piece, text, log, output, documents, counts)
    requires |output| < length && d < |counts| && Need(document, text) <= needLeft
    requires entry == EntryFor(document, d, length - |output|, text) && |piece(entry)| == entry.used
    requires output' == output + piece(entry) && counts' == counts[d := counts[d] + entry.used]
    requires documents' == if length - |output| == 1 then documents else documents + [entry]
    ensures Books(scheduled + [(d, document)], need, needLeft - Need(document, text), length, piece, text,
                  log + [entry], output', documents', counts')
  {
    ShapeGrows(log, scheduled, text, entry);
    TotalGrows(log, piece, output, counts, entry);
    ProgressStep(log, documents, |output|, length, need, needLeft, entry, text);
  }

  /** The domain after `d` in the cyclic order, and the one before it. */
  function Next(d: nat, n: nat): nat
    requires d < n
  {
    if d + 1 == n then 0 else d + 1
  }

  function Previous(d: nat, n: nat): (p: nat)
    requires d < n
    ensures p < n && Next(p, n) == d
  {
    if d == 0 then n - 1 else d - 1
  }

  lemma VisitsAdvance(offset: int, visit: nat, n: nat)
    requires n > 0
    ensures DomainAt(offset, visit + 1, n) == Next(DomainAt(offset, visit, n), n)
  {
    RemainderStep(visit, n);
    RotatedAt(offset, visit, n);
    RotatedAt(offset, visit + 1, n);
  }

  lemma RotatedAt(offset: int, visit: nat, n: nat)
    requires n > 0
    ensures DomainAt(offset, visit, n) ==
      if offset % n + visit % n < n then offset % n + visit % n else offset % n + visit % n - n
  {
    var sum := offset % n + visit % n;
    if sum < n { QuotientAndRemainder(sum, n, 0, sum); } else { QuotientAndRemainder(sum, n, 1, sum - n); }
  }

  /** The `empty` domains before `d` have nothing left. */
  ghost predicate RunIsEmpty(left: seq<seq<Document>>, d: nat, empty: nat)
    requires d < |left|
    decreases empty
  {
    empty == 0 || (left[Previous(d, |left|)] == [] && RunIsEmpty(left, Previous(d, |left|), empty - 1))
  }

  lemma {:induction false} InsideEmptyRun(left: seq<seq<Document>>, d: nat, empty: nat, e: nat)
    requires d < |left| && e < |left| && RunIsEmpty(left, d, empty)
    requires (if e < d then d - e else d + |left| - e) <= empty
    ensures left[e] == []
    decreases empty
  {
    if e != Previous(d, |left|) {
      InsideEmptyRun(left, Previous(d, |left|), empty - 1, e);
    }
  }

  /** As many empty visits in a row as there are domains mean that every pool is empty. */
  lemma AllVisitedEmpty(left: seq<seq<Document>>, d: nat)
    requires d < |left| && RunIsEmpty(left, d, |left|)
    ensures forall e :: 0 <= e < |left| ==> left[e] == []
  {
    forall e | 0 <= e < |left| ensures left[e] == [] {
      InsideEmptyRun(left, d, |left|, e);
    }
  }

  function DocumentsLeft(pools: seq<seq<Document>>): nat {
    if pools == [] then 0 else DocumentsLeft(pools[..|pools| - 1]) + |pools[|pools| - 1]|
  }

  lemma {:induction false} PopLeaves(pools: seq<seq<Document>>, d: nat)
    requires d < |pools| && pools[d] != []
    ensures DocumentsLeft(pools) == DocumentsLeft(pools[d := pools[d][1..]]) + 1
  {
    var popped, n := pools[d := pools[d][1..]], |pools|;
    if d == n - 1 {
      assert popped[..n - 1] == pools[..n - 1];
    } else {
      assert popped[..n - 1] == pools[..n - 1][d := pools[d][1..]];
      PopLeaves(pools[..n - 1], d);
    }
  }

  lemma StartOfPacking(
      pools0: seq<seq<Document>>, offset: int, length: nat, piece: Pieces, text: Texts, counts: seq<nat>)
    requires |counts| == |pools0| > 0 && length > 0 && forall d :: 0 <= d < |counts| ==> counts[d] == 0
    ensures PoolsAfter(pools0, pools0, offset, 0)
    ensures Books(Schedule(pools0, offset, 0), TotalNeed(pools0, text), TotalNeed(pools0, text), length, piece, text,
                  [], [], [], counts)
  {
    ZeroSum(counts, |counts|);
  }

  lemma {:induction false} ZeroSum(counts: seq<nat>, n: nat)
    requires n <= |counts| && forall i :: 0 <= i < n ==> counts[i] == 0
    ensures SumFirst(counts, n) == 0
  {
    if n > 0 { ZeroSum(counts, n - 1); }
  }

  // ---------- the loop ----------

  /** The pieces a document contributes: whole, cut to what is left, or just an end marker. */
  method TakeDocument(document: Document, d: nat, remaining: nat, bos: int, eos: int, text: Texts, ghost piece: Pieces)
    returns (contribution: seq<int>, record: Packed)
    requires remaining > 0 && ArePieces(piece, bos, eos, text)
    ensures record == EntryFor(document, d, remaining, text) && 1 <= record.used <= Need(document, text)
    ensures contribution == piece(record)
  {
    if remaining == 1 {
      record := Packed(d, document, 1, true);
      assert Contribution(record, bos, eos, text) == [eos];
      return [eos], record;
    }
    var take := Min(|text(document)|, remaining - 2);
    contribution := [bos] + text(document)[..take] + [eos];
    record := Packed(d, document, |contribution|, take < |text(document)|);
    assert contribution == Contribution(record, bos, eos, text);
  }

  /** Pack as much of a document as still fits. */
  method PackDocument(
      document: Document, d: nat, length: nat, bos: int, eos: int, text: Texts, ghost piece: Pieces,
      output0: seq<int>, documents0: seq<Packed>, counts0: seq<nat>, ghost log0: seq<Packed>,
      ghost scheduled: seq<(nat, Document)>, ghost need: nat, ghost needLeft: nat)
    returns (output: seq<int>, documents: seq<Packed>, counts: seq<nat>, ghost log: seq<Packed>)
    requires d < |counts0| && |output0| < length && Need(document, text) <= needLeft && ArePieces(piece, bos, eos, text)
    requires Books(scheduled, need, needLeft, length, piece, text, log0, output0, documents0, counts0)
    ensures |counts| == |counts0|
    ensures Books(scheduled + [(d, document)], need, needLeft - Need(document, text), length, piece, text,
                  log, output, documents, counts)
  {
    var contribution, record := TakeDocument(document, d, length - |output0|, bos, eos, text, piece);
    counts := counts0[d := counts0[d] + |contribution|];
    output, log := output0 + contribution, log0 + [record];
    documents := if length - |output0| == 1 then documents0 else documents0 + [record];
    BooksStep(scheduled, need, needLeft, length, piece, text, log0, output0, documents0, counts0, d, document, record,
              output, documents, counts);
  }

  /** What the loop carries: the pools as they are, the output, its records and the counts. */
  datatype Packing = Packing(left: seq<seq<Document>>, output: seq<int>, documents: seq<Packed>, counts: seq<nat>)

  /** Where the loop stands after some visits. */
  ghost predicate PackState(
      pools: seq<seq<Document>>, offset: int, length: nat, piece: Pieces, text: Texts, now: Packing, log: seq<Packed>,
      visits: nat)
  {
    && |now.counts| == |pools| > 0 && PoolsAfter(now.left, pools, offset, visits)
    && Books(Schedule(pools, offset, visits), TotalNeed(pools, text), TotalNeed(now.left, text), length, piece, text,
             log, now.output, now.documents, now.counts)
  }

  /** The same as a value the loop can carry without looking inside. */
  type Standing = (Packing, seq<Packed>, nat) -> bool

  ghost predicate Means(ok: Standing, pools: seq<seq<Document>>, offset: int, length: nat, piece: Pieces, text: Texts) {
    forall now, log, visits {:trigger PackState(pools, offset, length, piece, text, now, log, visits)} ::
      ok(now, log, visits) == PackState(pools, offset, length, piece, text, now, log, visits)
  }

  /** One visit: the domain's next document is popped and packed, if it has one. */
  method VisitDomain(
      now0: Packing, visit: nat, offset: int, length: nat, bos: int, eos: int, text: Texts, ghost piece: Pieces,
      ghost log0: seq<Packed>, ghost pools: seq<seq<Document>>)
    returns (took: bool, now: Packing, ghost log: seq<Packed>)
    requires PackState(pools, offset, length, piece, text, now0, log0, visit)
    requires |now0.output| < length && ArePieces(piece, bos, eos, text)
    ensures PackState(pools, offset, length, piece, text, now, log, visit + 1)
    ensures took ==> DocumentsLeft(now.left) < DocumentsLeft(now0.left)
    ensures !took ==> now == now0 && now.left[DomainAt(offset, visit, |now.left|)] == []
  {
    var left, d := now0.left, DomainAt(offset, visit, |now0.left|);
    VisitTakesNext(left, pools, offset, visit);
    ghost var scheduled := Schedule(pools, offset, visit);
    if left[d] == [] {
      assert Schedule(pools, offset, visit + 1) == scheduled;
      return false, now0, log0;
    }
    var document := left[d][0];
    PopNeed(left, d, text);
    PopLeaves(left, d);
    var output, documents, counts;
    output, documents, counts, log := PackDocument(
      document, d, length, bos, eos, text, piece, now0.output, now0.documents, now0.counts, log0, scheduled,
      TotalNeed(pools, text), TotalNeed(left, text));
    took, now := true, Packing(left[d := left[d][1..]], output, documents, counts);
  }

  /** A visit as the loop sees it. */
  method VisitNext(
      now0: Packing, visit: nat, offset: int, length: nat, bos: int, eos: int, text: Texts, ghost piece: Pieces,
      ghost log0: seq<Packed>, ghost pools: seq<seq<Document>>, ghost ok: Standing)
    returns (took: bool, now: Packing, ghost log: seq<Packed>)
    requires Means(ok, pools, offset, length, piece, text) && ok(now0, log0, visit)
    requires |now0.left| == |pools| > 0 && |now0.output| < length && ArePieces(piece, bos, eos, text)
    ensures ok(now, log, visit + 1) && |now.left| == |pools|
    ensures took ==> DocumentsLeft(now.left) < DocumentsLeft(now0.left)
    ensures !took ==> now == now0 && now.left[DomainAt(offset, visit, |now.left|)] == []
  {
    assert PackState(pools, offset, length, piece, text, now0, log0, visit);
    took, now, log := VisitDomain(now0, visit, offset, length, bos, eos, text, piece, log0, pools);
  }

  function StartPacking(pools: seq<seq<Document>>): Packing {
    Packing(pools, [], [], seq(|pools|, d => 0))
  }

  /** The round-robin loop. */
  method PackLoop(
      pools: seq<seq<Document>>, length: nat, offset: int, bos: int, eos: int, text: Texts, ghost piece: Pieces,
      ghost ok: Standing)
    returns (now: Packing, ghost log: seq<Packed>, cursor: nat)
    requires |pools| > 0 && length > 0 && ArePieces(piece, bos, eos, text) &&
      Means(ok, pools, offset, length, piece, text)
    requires ok(StartPacking(pools), [], 0)
    ensures ok(now, log, cursor)
    ensures |now.output| < length ==> forall d :: 0 <= d < |now.left| ==> now.left[d] == []
  {
    var n, empty := |pools|, 0;
    now, log, cursor := StartPacking(pools), [], 0;
    ghost var at := DomainAt(offset, 0, n);
    while |now.output| < length && empty < n
      invariant |now.left| == n && ok(now, log, cursor)
      invariant empty <= n && at == DomainAt(offset, cursor, n) && RunIsEmpty(now.left, at, empty)
      decreases DocumentsLeft(now.left), n - empty
    {
      VisitsAdvance(offset, cursor, n);
      var took;
      took, now, log := VisitNext(now, cursor, offset, length, bos, eos, text, piece, log, pools, ok);
      empty := if took then 0 else empty + 1;
      cursor, at := cursor + 1, Next(at, n);
    }
    if |now.output| < length {
      AllVisitedEmpty(now.left, at);
    }
  }

  /** What a full output says of the schedule, the markers and the counts. */
  lemma WhenPacked(
      pools: seq<seq<Document>>, offset: int, length: nat, bos: int, eos: int, text: Texts, now: Packing,
      log: seq<Packed>, visits: nat)
    requires length > 0 && |now.output| == length
    requires PackState(pools, offset, length, PieceOf(bos, eos, text), text, now, log, visits)
    ensures
      forall i {:trigger EntryAt(now.output, UsedTotal(log[..i]), log[i], bos, eos, text)} ::
        0 <= i < |log| ==> EntryAt(now.output, UsedTotal(log[..i]), log[i], bos, eos, text)
    ensures forall d :: 0 <= d < |now.counts| ==> now.counts[d] == |PositionsOf(log, d)|
    ensures AllWhole(log) <==> IsBoundary(pools, offset, length, text)
    ensures UsedTotal(log) == length
    ensures now.documents != log <==> IsBoundary(pools, offset, length - 1, text)
    ensures UsedTotal(now.documents) != length <==> IsBoundary(pools, offset, length - 1, text)
  {
    UsedIsLength(log, bos, eos, text);
    OutputFacts(log, Schedule(pools, offset, visits), bos, eos, text, now.counts);
    LengthDecidesLast(log, Schedule(pools, offset, visits), pools, offset, visits, text);
  }

  /** The caller's pools. */
  class DocumentPools {
    var pools: seq<seq<Document>>

    constructor (pools: seq<seq<Document>>)
      ensures this.pools == pools
    {
      this.pools := pools;
    }

    /** Packs exactly `length` tokens, or fails because all pools together fall short of it.
        The pools lose exactly what the visits took. */
    method PackBalancedDocuments(length: int, offset: int, bos: int, eos: int, text: Texts)
      returns (result: Result<PackedTokens, PackError>, ghost log: seq<Packed>, visits: nat)
      modifies this
      ensures result == Err(NonPositiveLength) <==> length <= 0
      ensures result == Err(NoDomains) <==> length > 0 && old(pools) == []
      ensures length > 0 && old(pools) != [] ==> (result.Ok? <==> length <= TotalNeed(old(pools), text))
      ensures result.Err? ==> result.error != WrongLength
      ensures result.Err? && result.error.Exhausted? ==> result.error.remaining == length - TotalNeed(old(pools), text)
      ensures result.Err? && result.error.Exhausted? ==> forall d :: 0 <= d < |pools| ==> pools[d] == []
      ensures result.Ok? ==>
        && old(pools) != [] && |result.value.tokens| == length && |result.value.counts| == |pools|
        && IsShape(log, Schedule(old(pools), offset, visits), text)
        && IsTotal(log, PieceOf(bos, eos, text), result.value.tokens, result.value.counts)
        && result.value.documents == Recorded(log)
        && PoolsAfter(pools, old(pools), offset, visits)
      ensures result.Ok? ==>
        forall i {:trigger EntryAt(result.value.tokens, UsedTotal(log[..i]), log[i], bos, eos, text)} ::
          0 <= i < |log| ==> EntryAt(result.value.tokens, UsedTotal(log[..i]), log[i], bos, eos, text)
      ensures result.Ok? ==>
        forall d :: 0 <= d < |result.value.counts| ==> result.value.counts[d] == |PositionsOf(log, d)|
      ensures result.Ok? ==> (AllWhole(log) <==> IsBoundary(old(pools), offset, length, text))
      ensures result.Ok? ==> UsedTotal(log) == length
      ensures result.Ok? ==>
        (result.value.documents != log <==> IsBoundary(old(pools), offset, length - 1, text))
      ensures result.Ok? ==>
        (UsedTotal(result.value.documents) != length <==> IsBoundary(old(pools), offset, length - 1, text))
    {
      log, visits := [], 0;
      if length <= 0 { return Err(NonPositiveLength), log, visits; }
      if pools == [] { return Err(NoDomains), log, visits; }
      var now;
      ghost var start, piece := pools, PieceOf(bos, eos, text);
      ghost var ok: Standing := (now: Packing, log: seq<Packed>, visits: nat) =>
        PackState(start, offset, length, piece, text, now, log, visits);
      StartOfPacking(pools, offset, length, piece, text, seq(|pools|, d => 0));
      now, log, visits := PackLoop(pools, length, offset, bos, eos, text, piece, ok);
      assert PackState(start, offset, length, piece, text, now, log, visits);
      pools := now.left;
      if |now.output| < length {
        EmptyNeed(pools, text);
        return Err(Exhausted(length - |now.output|)), log, visits;
      }
      result := Finish(now, length);
      WhenPacked(start, offset, length, bos, eos, text, now, log, visits);
    }
  }

  /** The closing length check. */
  function Finish(now: Packing, length: int): Result<PackedTokens, PackError> {
    if |now.output| != length then Err(WrongLength) else Ok(PackedTokens(now.output, now.documents, now.counts))
  }

  // ---------- consequences ----------

  /** Visit `c` adds one to its own domain's count as long as that has a document left. */
  lemma TakenStep(pools: seq<seq<Document>>, offset: int, c: nat, d: nat)
    requires d < |pools|
    ensures
      var took := DomainAt(offset, c, |pools|) == d && c / |pools| < |pools[d]|;
      && Taken(pools, offset, c + 1, d) == Taken(pools, offset, c, d) + (if took then 1 else 0)
      && (took ==> Taken(pools, offset, c, d) == c / |pools|)
  {
    OneMoreVisit(c, PositionOf(offset, d, |pools|), |pools|);
    PositionIsInverse(offset, d, |pools|, c);
  }

  lemma PrefixStep(
      before: seq<(nat, Document)>, after: seq<(nat, Document)>, found: bool, e: nat, document: Document, d: nat,
      pool: seq<Document>, taken: nat)
    requires taken <= |pool| && OfDomain(before, d) == pool[..taken]
    requires after == if found then before + [(e, document)] else before
    requires found && e == d ==> taken < |pool| && document == pool[taken]
    ensures taken + (if found && e == d then 1 else 0) <= |pool|
    ensures OfDomain(after, d) == pool[..taken + if found && e == d then 1 else 0]
  {
    if found {
      OfDomainGrows(before, (e, document), d);
    }
  }

  /** One more visit, without the arithmetic. */
  lemma {:induction false} ScheduleStep(pools: seq<seq<Document>>, offset: int, c: nat, d: nat)
    returns (found: bool, e: nat, document: Document)
    requires d < |pools|
    ensures Schedule(pools, offset, c + 1) ==
      if found then Schedule(pools, offset, c) + [(e, document)] else Schedule(pools, offset, c)
    ensures Taken(pools, offset, c + 1, d) == Taken(pools, offset, c, d) + if found && e == d then 1 else 0
    ensures found && e == d ==>
      Taken(pools, offset, c, d) < |pools[d]| && document == pools[d][Taken(pools, offset, c, d)]
  {
    TakenStep(pools, offset, c, d);
    found, e, document := VisitScheduled(pools, offset, c);
  }

  lemma {:induction false} VisitScheduled(pools: seq<seq<Document>>, offset: int, c: nat)
    returns (found: bool, e: nat, document: Document)
    requires |pools| > 0
    ensures e == DomainAt(offset, c, |pools|) && (found <==> c / |pools| < |pools[e]|)
    ensures found ==> document == pools[e][c / |pools|]
    ensures Schedule(pools, offset, c + 1) ==
      if found then Schedule(pools, offset, c) + [(e, document)] else Schedule(pools, offset, c)
  {
    e := DomainAt(offset, c, |pools|);
    found := c / |pools| < |pools[e]|;
    document := if found then pools[e][c / |pools|] else 0;
  }

  /** Each domain contributes a prefix of its pool, in order. */
  lemma {:induction false} ScheduleTakesPrefixes(pools: seq<seq<Document>>, offset: int, visits: nat, d: nat)
    requires d < |pools|
    ensures OfDomain(Schedule(pools, offset, visits), d) == pools[d][..Taken(pools, offset, visits, d)]
  {
    if visits > 0 {
      var c := visits - 1;
      ScheduleTakesPrefixes(pools, offset, c, d);
      var found, e, document := ScheduleStep(pools, offset, c, d);
      PrefixStep(Schedule(pools, offset, c), Schedule(pools, offset, visits), found, e, document, d,
                 pools[d], Taken(pools, offset, c, d));
    }
  }

  /** The documents of one domain, in order. */
  function OfDomain(scheduled: seq<(nat, Document)>, d: nat): seq<Document> {
    if scheduled == [] then []
    else
      OfDomain(scheduled[..|scheduled| - 1], d) +
      (if scheduled[|scheduled| - 1].0 == d then [scheduled[|scheduled| - 1].1] else [])
  }

  lemma OfDomainGrows(scheduled: seq<(nat, Document)>, entry: (nat, Document), d: nat)
    ensures OfDomain(scheduled + [entry], d) == OfDomain(scheduled, d) + if entry.0 == d then [entry.1] else []
  {
    assert (scheduled + [entry])[..|scheduled|] == scheduled;
  }

  // ---------- splits must not share documents ----------

  datatype Split = Split(name: int, fingerprints: seq<int>)

  ghost predicate DistinctNames(splits: seq<Split>) {
    forall i, j :: 0 <= i < j < |splits| ==> splits[i].name != splits[j].name
  }

  /** No document belongs to two splits. */
  ghost predicate Disjoint(splits: seq<Split>) {
    forall i, j :: 0 <= i < j < |splits| ==> Members(splits[i].fingerprints) !! Members(splits[j].fingerprints)
  }

  datatype SplitReport = SplitReport(total: nat, perSplit: seq<nat>)

  /** The documents seen so far, each with the name of its split. */
  ghost predicate IsSeen(seen: map<int, int>, splits: seq<Split>) {
    && (forall f :: f in seen ==>
       exists i :: 0 <= i < |splits| && splits[i].name == seen[f] && f in splits[i].fingerprints)
    && forall i, f :: 0 <= i < |splits| && f in splits[i].fingerprints ==> f in seen && seen[f] == splits[i].name
  }

  /** One split's documents, against what the earlier splits listed. */
  method SeeSplit(seen0: map<int, int>, s: Split) returns (ok: bool, seen: map<int, int>, current: set<int>)
    requires forall f :: f in seen0 ==> seen0[f] != s.name
    ensures ok <==> Members(s.fingerprints) !! seen0.Keys
    ensures ok ==> current == Members(s.fingerprints) && seen.Keys == seen0.Keys + current
    ensures ok ==> forall f :: f in seen ==> seen[f] == if f in current then s.name else seen0[f]
  {
    seen, current := seen0, {};
    for j := 0 to |s.fingerprints|
      invariant current == Members(s.fingerprints[..j]) && current !! seen0.Keys && seen.Keys == seen0.Keys + current
      invariant forall f :: f in seen ==> seen[f] == if f in current then s.name else seen0[f]
    {
      var f := s.fingerprints[j];
      if f in seen && seen[f] != s.name {
        assert f in Members(s.fingerprints);
        return false, seen, current;
      }
      assert s.fingerprints[..j + 1] == s.fingerprints[..j] + [f];
      seen, current := seen[f := s.name], current + {f};
    }
    assert s.fingerprints[..|s.fingerprints|] == s.fingerprints;
    ok := true;
  }

  /** What is known after the first `i` splits. */
  ghost predicate SplitsSeen(splits: seq<Split>, i: nat, seen: map<int, int>, perSplit: seq<nat>)
    requires i <= |splits|
  {
    && IsSeen(seen, splits[..i]) && Disjoint(splits[..i]) && |perSplit| == i
    && |seen| == SumFirst(perSplit, i)
    && forall q :: 0 <= q < i ==> perSplit[q] == |Members(splits[q].fingerprints)|
  }

  /** One more split. */
  method AddSplit(splits: seq<Split>, i: nat, seen0: map<int, int>, perSplit0: seq<nat>)
    returns (ok: bool, seen: map<int, int>, perSplit: seq<nat>)
    requires i < |splits| && DistinctNames(splits) && SplitsSeen(splits, i, seen0, perSplit0)
    ensures ok ==> SplitsSeen(splits, i + 1, seen, perSplit)
    ensures !ok ==> !Disjoint(splits)
  {
    EarlierNames(splits, i, seen0);
    DisjointStep(splits, i, seen0);
    var current;
    ok, seen, current := SeeSplit(seen0, splits[i]);
    perSplit := perSplit0;
    if ok {
      SeenStep(splits, i, seen0, seen);
      MapSizes(seen0, seen, current);
      perSplit := perSplit0 + [|current|];
      SumSame(perSplit0, perSplit, i);
    }
  }

  /** Accepts exactly the disjoint splits; the report then counts every document once. */
  method ValidateDocumentDisjointness(splits: seq<Split>) returns (report: Result<SplitReport, nat>)
    requires DistinctNames(splits)
    ensures report.Ok? <==> Disjoint(splits)
    ensures report.Ok? ==>
      |report.value.perSplit| == |splits| && report.value.total == SumFirst(report.value.perSplit, |splits|)
    ensures report.Ok? ==>
      forall i :: 0 <= i < |splits| ==> report.value.perSplit[i] == |Members(splits[i].fingerprints)|
  {
    var seen: map<int, int>, perSplit: seq<nat> := map[], [];
    for i := 0 to |splits|
      invariant SplitsSeen(splits, i, seen, perSplit)
    {
      var ok;
      ok, seen, perSplit := AddSplit(splits, i, seen, perSplit);
      if !ok { return Err(i); }
    }
    assert splits[..|splits|] == splits;
    return Ok(SplitReport(|seen|, perSplit));
  }

  lemma EarlierNames(splits: seq<Split>, i: nat, seen: map<int, int>)
    requires i < |splits| && DistinctNames(splits) && IsSeen(seen, splits[..i])
    ensures forall f :: f in seen ==> seen[f] != splits[i].name
  {
    forall f | f in seen ensures seen[f] != splits[i].name {
      var q :| 0 <= q < i && splits[..i][q].name == seen[f] && f in splits[..i][q].fingerprints;
    }
  }

  lemma MapSizes(seen: map<int, int>, extended: map<int, int>, current: set<int>)
    requires extended.Keys == seen.Keys + current && current !! seen.Keys
    ensures |extended| == |seen| + |current|
  {
    assert |extended.Keys| == |extended| && |seen.Keys| == |seen|;
  }

  lemma DisjointStep(splits: seq<Split>, i: nat, seen: map<int, int>)
    requires i < |splits| && IsSeen(seen, splits[..i]) && Disjoint(splits[..i])
    ensures Disjoint(splits[..i + 1]) <==> Members(splits[i].fingerprints) !! seen.Keys
    ensures Disjoint(splits) ==> Disjoint(splits[..i + 1])
  {
    var part, longer := splits[..i], splits[..i + 1];
    if Disjoint(longer) {
      forall f | f in seen ensures f !in Members(splits[i].fingerprints) {
        var q :| 0 <= q < i && part[q].name == seen[f] && f in part[q].fingerprints;
        assert Members(longer[q].fingerprints) !! Members(longer[i].fingerprints);
        assert f in Members(longer[q].fingerprints);
      }
    }
    if Members(splits[i].fingerprints) !! seen.Keys {
      forall p, q | 0 <= p < q < |longer| ensures Members(longer[p].fingerprints) !! Members(longer[q].fingerprints) {
        if q == i {
          forall f | f in Members(longer[p].fingerprints) ensures f !in Members(longer[q].fingerprints) {
            assert f in part[p].fingerprints;
            assert f in seen.Keys;
          }
        } else {
          assert longer[p] == part[p] && longer[q] == part[q];
        }
      }
    }
  }

  lemma SeenStep(splits: seq<Split>, i: nat, seen: map<int, int>, extended: map<int, int>)
    requires i < |splits| && IsSeen(seen, splits[..i]) && Members(splits[i].fingerprints) !! seen.Keys
    requires extended.Keys == seen.Keys + Members(splits[i].fingerprints)
    requires forall f :: f in extended ==>
      extended[f] == if f in Members(splits[i].fingerprints) then splits[i].name else seen[f]
    ensures IsSeen(extended, splits[..i + 1])
  {
    var part, longer := splits[..i], splits[..i + 1];
    forall f | f in extended
      ensures exists q :: 0 <= q < |longer| && longer[q].name == extended[f] && f in longer[q].fingerprints
    {
      if f in seen {
        var q :| 0 <= q < i && part[q].name == seen[f] && f in part[q].fingerprints;
        assert longer[q].name == extended[f] && f in longer[q].fingerprints;
      } else {
        assert longer[i].name == extended[f] && f in longer[i].fingerprints;
      }
    }
    forall q, f | 0 <= q < |longer| && f in longer[q].fingerprints
      ensures f in extended && extended[f] == longer[q].name
    {
      if q < i {
        assert f in part[q].fingerprints;
        assert f in seen.Keys;
      } else {
        assert f in Members(splits[i].fingerprints);
      }
    }
  }
}
