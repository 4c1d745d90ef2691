/** Output emission shared by the fused selection and the repair reducer: warps
    reserve slots with aggregated atomics and write them, in any interleaving. */
module Emission {
  import opened Arithmetic
  import opened Exactness
  import opened WarpPrimitives
  import opened RadixSelect

  /** One warp's batch: at most 32 consecutive candidate positions. */
  datatype Block = Block(lo: nat, hi: nat)

  ghost predicate ValidBlocks(blocks: seq<Block>, n: nat) {
    && (forall b :: 0 <= b < |blocks| ==> blocks[b].lo <= blocks[b].hi <= n)
    && forall a, b :: 0 <= a < b < |blocks| ==> blocks[a].hi <= blocks[b].lo
  }

  predicate InBlock(blocks: seq<Block>, b: nat, i: nat)
    requires b < |blocks|
  {
    blocks[b].lo <= i < blocks[b].hi
  }

  ghost predicate CoversFlags(blocks: seq<Block>, flags: seq<bool>) {
    forall i :: 0 <= i < |flags| && flags[i] ==> InRuns(blocks, i)
  }

  /** The position is inside some block. */
  ghost predicate InRuns(blocks: seq<Block>, i: nat) {
    exists b :: 0 <= b < |blocks| && InBlock(blocks, b, i)
  }

  /** The flagged positions of [lo, hi) in lane order. */
  ghost function FlaggedList(flags: seq<bool>, lo: nat, hi: nat): (list: seq<nat>)
    requires lo <= hi <= |flags|
    ensures |list| == Ones(flags, hi) - Ones(flags, lo)
    decreases hi
  {
    if lo == hi then []
    else FlaggedList(flags, lo, hi - 1) + if flags[hi - 1] then [hi - 1] else []
  }

  /** Position `i` sits at the offset its lane was given. */
  lemma {:induction false} FlaggedListAt(flags: seq<bool>, lo: nat, hi: nat, i: nat)
    requires lo <= i < hi <= |flags| && flags[i]
    ensures 0 <= Ones(flags, i) - Ones(flags, lo) < |FlaggedList(flags, lo, hi)|
    ensures FlaggedList(flags, lo, hi)[Ones(flags, i) - Ones(flags, lo)] == i
    decreases hi
  {
    OnesMonotone(flags, lo, i);
    OnesMonotone(flags, i, hi);
    if i < hi - 1 {
      FlaggedListAt(flags, lo, hi - 1, i);
    }
  }

  lemma {:induction false} FlaggedListEntry(flags: seq<bool>, lo: nat, hi: nat, j: nat)
    requires lo <= hi <= |flags| && j < |FlaggedList(flags, lo, hi)|
    ensures lo <= FlaggedList(flags, lo, hi)[j] < hi && flags[FlaggedList(flags, lo, hi)[j]]
    ensures Ones(flags, FlaggedList(flags, lo, hi)[j]) == Ones(flags, lo) + j
    decreases hi
  {
    if lo < hi {
      var front := FlaggedList(flags, lo, hi - 1);
      if j < |front| {
        FlaggedListEntry(flags, lo, hi - 1, j);
      }
    }
  }

  lemma FlaggedListContents(flags: seq<bool>, lo: nat, hi: nat)
    requires lo <= hi <= |flags|
    ensures forall i :: lo <= i < hi && flags[i] ==>
      0 <= Ones(flags, i) - Ones(flags, lo) < |FlaggedList(flags, lo, hi)| &&
      FlaggedList(flags, lo, hi)[Ones(flags, i) - Ones(flags, lo)] == i
    ensures forall j :: 0 <= j < |FlaggedList(flags, lo, hi)| ==>
      lo <= FlaggedList(flags, lo, hi)[j] < hi && flags[FlaggedList(flags, lo, hi)[j]]
    ensures NoDuplicates(FlaggedList(flags, lo, hi))
  {
    forall i | lo <= i < hi && flags[i]
      ensures 0 <= Ones(flags, i) - Ones(flags, lo) < |FlaggedList(flags, lo, hi)|
      ensures FlaggedList(flags, lo, hi)[Ones(flags, i) - Ones(flags, lo)] == i
    {
      FlaggedListAt(flags, lo, hi, i);
    }
    var list := FlaggedList(flags, lo, hi);
    forall j | 0 <= j < |list|
      ensures lo <= list[j] < hi && flags[list[j]] && Ones(flags, list[j]) == Ones(flags, lo) + j
    {
      FlaggedListEntry(flags, lo, hi, j);
    }
  }

  /** The slot a reserving block assigned to its flagged position `i`. */
  ghost function Slot(flags: seq<bool>, blocks: seq<Block>, base: seq<nat>, b: nat, i: nat): (slot: int)
    requires b < |blocks| == |base| && blocks[b].lo <= |flags| && i <= |flags|
  {
    base[b] + Ones(flags, i) - Ones(flags, blocks[b].lo)
  }

  /** One reservation cursor: `log` is what its atomic counter has handed out so far,
      in hand-out order, and every block that reserved finds its positions there. */
  ghost predicate Cursor(flags: seq<bool>, blocks: seq<Block>, started: seq<bool>, base: seq<nat>, log: seq<nat>) {
    && |started| == |base| == |blocks| && ValidBlocks(blocks, |flags|)
    && NoDuplicates(log)
    && (forall j :: 0 <= j < |log| ==> log[j] < |flags| && flags[log[j]])
    && (forall b, i :: 0 <= b < |blocks| && 0 <= i && InBlock(blocks, b, i) && flags[i] && !started[b] ==> i !in log)
    && forall b, i :: 0 <= b < |blocks| && 0 <= i && InBlock(blocks, b, i) && flags[i] && started[b] ==>
      0 <= Slot(flags, blocks, base, b, i) < |log| && log[Slot(flags, blocks, base, b, i)] == i
  }

  lemma ReservedPositionsAreNew(
      flags: seq<bool>, blocks: seq<Block>, started: seq<bool>, base: seq<nat>, log: seq<nat>, b: nat)
    requires Cursor(flags, blocks, started, base, log)
    requires b < |blocks| && !started[b]
    ensures
      var log' := log + FlaggedList(flags, blocks[b].lo, blocks[b].hi);
      NoDuplicates(log') && forall j :: 0 <= j < |log'| ==> log'[j] < |flags| && flags[log'[j]]
  {
    var list := FlaggedList(flags, blocks[b].lo, blocks[b].hi);
    FlaggedListContents(flags, blocks[b].lo, blocks[b].hi);
    forall j | 0 <= j < |list| ensures list[j] !in log {
      assert InBlock(blocks, b, list[j]);
    }
  }

  lemma ReservedSlot(
      flags: seq<bool>, blocks: seq<Block>, started: seq<bool>, base: seq<nat>, log: seq<nat>, b: nat, c: nat, i: nat)
    requires Cursor(flags, blocks, started, base, log)
    requires b < |blocks| && !started[b] && c < |blocks| && InBlock(blocks, c, i) && flags[i] && (started[c] || c == b)
    ensures
      var slot, log' :=
        Slot(flags, blocks, base[b := |log|], c, i), log + FlaggedList(flags, blocks[b].lo, blocks[b].hi);
      0 <= slot < |log'| && log'[slot] == i
  {
    if c == b {
      FlaggedListAt(flags, blocks[b].lo, blocks[b].hi, i);
      OnesMonotone(flags, blocks[b].lo, i);
    } else {
      assert Slot(flags, blocks, base[b := |log|], c, i) == Slot(flags, blocks, base, c, i);
    }
  }

  lemma UnreservedStayOut(
      flags: seq<bool>, blocks: seq<Block>, started: seq<bool>, base: seq<nat>, log: seq<nat>, b: nat, c: nat, i: nat)
    requires Cursor(flags, blocks, started, base, log)
    requires b < |blocks| && c < |blocks| && c != b && InBlock(blocks, c, i) && flags[i] && !started[c]
    ensures i !in log + FlaggedList(flags, blocks[b].lo, blocks[b].hi)
  {
    var list := FlaggedList(flags, blocks[b].lo, blocks[b].hi);
    forall j | 0 <= j < |list| ensures list[j] != i {
      FlaggedListEntry(flags, blocks[b].lo, blocks[b].hi, j);
    }
  }

  /** A block's atomic reservation extends the log by exactly its flagged positions. */
  lemma ReserveKeepsCursor(
      flags: seq<bool>, blocks: seq<Block>, started: seq<bool>, base: seq<nat>, log: seq<nat>, b: nat)
    requires Cursor(flags, blocks, started, base, log)
    requires b < |blocks| && !started[b]
    ensures Cursor(flags, blocks, started[b := true], base[b := |log|],
                   log + FlaggedList(flags, blocks[b].lo, blocks[b].hi))
  {
    var started', base', log' :=
      started[b := true], base[b := |log|], log + FlaggedList(flags, blocks[b].lo, blocks[b].hi);
    ReservedPositionsAreNew(flags, blocks, started, base, log, b);
    forall c, i | 0 <= c < |blocks| && 0 <= i && InBlock(blocks, c, i) && flags[i] && started'[c]
      ensures 0 <= Slot(flags, blocks, base', c, i) < |log'| && log'[Slot(flags, blocks, base', c, i)] == i
    {
      ReservedSlot(flags, blocks, started, base, log, b, c, i);
    }
    forall c, i | 0 <= c < |blocks| && 0 <= i && InBlock(blocks, c, i) && flags[i] && !started'[c]
      ensures i !in log'
    {
      UnreservedStayOut(flags, blocks, started, base, log, b, c, i);
    }
  }

  /** A cursor never hands out more slots than there are flagged positions. */
  lemma CursorIsBounded(flags: seq<bool>, blocks: seq<Block>, started: seq<bool>, base: seq<nat>, log: seq<nat>)
    requires Cursor(flags, blocks, started, base, log)
    ensures |log| <= |Flagged(flags)|
  {
    NoDuplicatesCardinality(log);
    SubsetCardinality(Members(log), Flagged(flags));
  }

  /** Once every block has reserved, the log lists every flagged position. */
  lemma CursorIsComplete(flags: seq<bool>, blocks: seq<Block>, started: seq<bool>, base: seq<nat>, log: seq<nat>)
    requires Cursor(flags, blocks, started, base, log) && CoversFlags(blocks, flags)
    requires forall b :: 0 <= b < |blocks| ==> started[b]
    ensures Members(log) == Flagged(flags) && |log| == |Flagged(flags)|
  {
    NoDuplicatesCardinality(log);
    forall i | i in Flagged(flags) ensures i in Members(log) {
      var b :| 0 <= b < |blocks| && InBlock(blocks, b, i);
      assert log[Slot(flags, blocks, base, b, i)] == i;
    }
    assert Members(log) == Flagged(flags);
  }

  /** What a cursor's blocks have done to their part of the output: every slot of a
      block that wrote was written exactly once, with its candidate; no other was. */
  ghost predicate Placed<T>(
      cands: seq<Pair>, emit: Pair -> T, flags: seq<bool>, blocks: seq<Block>, started: seq<bool>, written: seq<bool>,
      base: seq<nat>, log: seq<nat>, offset: nat, limit: nat, out: seq<T>, writes: seq<nat>)
  {
    && Cursor(flags, blocks, started, base, log)
    && |written| == |blocks| && |cands| == |flags| && offset + limit <= |out| == |writes|
    && (forall b :: 0 <= b < |blocks| && written[b] ==> started[b])
    && (forall b, i ::
          (0 <= b < |blocks| && 0 <= i && InBlock(blocks, b, i) && flags[i] && started[b] &&
            Slot(flags, blocks, base, b, i) < limit)
          ==> writes[offset + Slot(flags, blocks, base, b, i)] == (if written[b] then 1 else 0) &&
              (written[b] ==> out[offset + Slot(flags, blocks, base, b, i)] == emit(cands[i])))
    && forall s :: offset + |log| <= s < offset + limit ==> writes[s] == 0
  }

  lemma ReserveKeepsPlaced<T>(
      cands: seq<Pair>, emit: Pair -> T, flags: seq<bool>, blocks: seq<Block>, started: seq<bool>, written: seq<bool>,
      base: seq<nat>, log: seq<nat>, offset: nat, limit: nat, out: seq<T>, writes: seq<nat>, b: nat)
    requires Placed(cands, emit, flags, blocks, started, written, base, log, offset, limit, out, writes)
    requires b < |blocks| && !started[b]
    ensures Placed(cands, emit, flags, blocks, started[b := true], written, base[b := |log|],
                   log + FlaggedList(flags, blocks[b].lo, blocks[b].hi), offset, limit, out, writes)
  {
    ReserveKeepsCursor(flags, blocks, started, base, log, b);
    var started', base' := started[b := true], base[b := |log|];
    forall c, i | 0 <= c < |blocks| && 0 <= i && InBlock(blocks, c, i) && flags[i] && started'[c] &&
        Slot(flags, blocks, base', c, i) < limit
      ensures writes[offset + Slot(flags, blocks, base', c, i)] == (if written[c] then 1 else 0)
      ensures written[c] ==> out[offset + Slot(flags, blocks, base', c, i)] == emit(cands[i])
    {
      if c == b {
        OnesMonotone(flags, blocks[b].lo, i);
      } else {
        assert Slot(flags, blocks, base', c, i) == Slot(flags, blocks, base, c, i);
      }
    }
  }

  /** The slots a started block owns are one interval of the log, holding its own list. */
  lemma OwnedInterval(
      flags: seq<bool>, blocks: seq<Block>, started: seq<bool>, base: seq<nat>, log: seq<nat>, b: nat, j: nat)
    requires Cursor(flags, blocks, started, base, log)
    requires b < |blocks| && started[b] && j < |FlaggedList(flags, blocks[b].lo, blocks[b].hi)|
    ensures base[b] + j < |log| && log[base[b] + j] == FlaggedList(flags, blocks[b].lo, blocks[b].hi)[j]
    ensures InBlock(blocks, b, log[base[b] + j])
  {
    FlaggedListEntry(flags, blocks[b].lo, blocks[b].hi, j);
    var i := FlaggedList(flags, blocks[b].lo, blocks[b].hi)[j];
    assert InBlock(blocks, b, i);
    assert Slot(flags, blocks, base, b, i) == base[b] + j;
  }

  /** `after` is `before` with block `b`'s slots below the limit overwritten. */
  ghost predicate Overwrites<T>(
      cands: seq<Pair>, emit: Pair -> T, list: seq<nat>, first: nat, offset: nat, limit: nat, before: seq<T>,
      after: seq<T>)
    requires forall j :: 0 <= j < |list| ==> list[j] < |cands|
  {
    && |after| == |before| && offset + limit <= |after|
    && forall s :: 0 <= s < |after| ==>
      after[s] == if offset + first <= s < offset + first + |list| && s < offset + limit
                  then emit(cands[list[s - offset - first]]) else before[s]
  }

  ghost function CountWrites(writes: seq<nat>, count: nat, first: nat, offset: nat, limit: nat): (next: seq<nat>)
    ensures |next| == |writes|
  {
    seq(|writes|, s requires 0 <= s < |writes| =>
      writes[s] + if offset + first <= s < offset + first + count && s < offset + limit then 1 else 0)
  }

  lemma WriteKeepsPlaced<T>(
      cands: seq<Pair>, emit: Pair -> T, flags: seq<bool>, blocks: seq<Block>, started: seq<bool>, written: seq<bool>,
      base: seq<nat>, log: seq<nat>, offset: nat, limit: nat, out: seq<T>, writes: seq<nat>, b: nat, out': seq<T>)
    requires Placed(cands, emit, flags, blocks, started, written, base, log, offset, limit, out, writes)
    requires b < |blocks| && started[b] && !written[b]
    requires forall j :: 0 <= j < |FlaggedList(flags, blocks[b].lo, blocks[b].hi)| ==>
      FlaggedList(flags, blocks[b].lo, blocks[b].hi)[j] < |cands|
    requires Overwrites(cands, emit, FlaggedList(flags, blocks[b].lo, blocks[b].hi), base[b], offset, limit, out, out')
    ensures Placed(cands, emit, flags, blocks, started, written[b := true], base, log, offset, limit, out',
                   CountWrites(writes, |FlaggedList(flags, blocks[b].lo, blocks[b].hi)|, base[b], offset, limit))
  {
    var list := FlaggedList(flags, blocks[b].lo, blocks[b].hi);
    var written', writes' := written[b := true], CountWrites(writes, |list|, base[b], offset, limit);
    forall c, i | 0 <= c < |blocks| && 0 <= i && InBlock(blocks, c, i) && flags[i] && started[c] &&
        Slot(flags, blocks, base, c, i) < limit
      ensures writes'[offset + Slot(flags, blocks, base, c, i)] == (if written'[c] then 1 else 0)
      ensures written'[c] ==> out'[offset + Slot(flags, blocks, base, c, i)] == emit(cands[i])
    {
      var slot := Slot(flags, blocks, base, c, i);
      if c == b {
        FlaggedListAt(flags, blocks[b].lo, blocks[b].hi, i);
      } else if base[b] <= slot < base[b] + |list| {
        OwnedInterval(flags, blocks, started, base, log, b, slot - base[b]);
        assert false;
      }
    }
    forall s | offset + |log| <= s < offset + limit ensures writes'[s] == 0 {
      if base[b] <= s - offset < base[b] + |list| {
        OwnedInterval(flags, blocks, started, base, log, b, s - offset - base[b]);
        assert false;
      }
    }
  }

  /** The other cursor's slots are out of reach of a write confined to this one's. */
  lemma WriteSparesOther<T>(
      cands: seq<Pair>, emit: Pair -> T, flags: seq<bool>, blocks: seq<Block>, started: seq<bool>, written: seq<bool>,
      base: seq<nat>, log: seq<nat>, offset: nat, limit: nat, out: seq<T>, writes: seq<nat>, out': seq<T>,
      writes': seq<nat>)
    requires Placed(cands, emit, flags, blocks, started, written, base, log, offset, limit, out, writes)
    requires |out'| == |out| == |writes'|
    requires forall s :: offset <= s < offset + limit ==> out'[s] == out[s] && writes'[s] == writes[s]
    ensures Placed(cands, emit, flags, blocks, started, written, base, log, offset, limit, out', writes')
  {
    forall c, i | 0 <= c < |blocks| && 0 <= i && InBlock(blocks, c, i) && flags[i] && started[c] &&
        Slot(flags, blocks, base, c, i) < limit
      ensures writes'[offset + Slot(flags, blocks, base, c, i)] == (if written[c] then 1 else 0)
      ensures written[c] ==> out'[offset + Slot(flags, blocks, base, c, i)] == emit(cands[i])
    {
    }
  }

  /** When every block has written, each slot was written exactly once, from the log. */
  lemma SlotIsPlaced<T>(
      cands: seq<Pair>, emit: Pair -> T, flags: seq<bool>, blocks: seq<Block>, started: seq<bool>, written: seq<bool>,
      base: seq<nat>, log: seq<nat>, offset: nat, limit: nat, out: seq<T>, writes: seq<nat>, j: nat)
    requires Placed(cands, emit, flags, blocks, started, written, base, log, offset, limit, out, writes)
    requires CoversFlags(blocks, flags) && j < limit <= |log|
    requires forall b :: 0 <= b < |blocks| ==> written[b]
    ensures log[j] < |cands| && writes[offset + j] == 1 && out[offset + j] == emit(cands[log[j]])
  {
    var i := log[j];
    var b :| 0 <= b < |blocks| && InBlock(blocks, b, i);
    assert log[Slot(flags, blocks, base, b, i)] == log[j];
  }

  /** What a reserving warp keeps in its registers: each lane's offset. */
  ghost predicate LaneOffsets(flags: seq<bool>, block: Block, base: nat, offsets: seq<int>) {
    && block.lo <= block.hi <= |flags| && |offsets| == block.hi - block.lo
    && forall l :: 0 <= l < |offsets| ==>
      offsets[l] == if flags[block.lo + l] then base + Ones(flags, block.lo + l) - Ones(flags, block.lo) else -1
  }

  ghost predicate Registers(
      flags: seq<bool>, blocks: seq<Block>, started: seq<bool>, base: seq<nat>, offsets: seq<seq<int>>)
  {
    && |started| == |base| == |offsets| == |blocks|
    && forall b :: 0 <= b < |blocks| && started[b] ==> LaneOffsets(flags, blocks[b], base[b], offsets[b])
  }

  method ReserveBlock(counter: nat, flags: seq<bool>, block: Block) returns (next: nat, offsets: seq<int>)
    requires block.lo <= block.hi <= |flags|
    ensures next == counter + |FlaggedList(flags, block.lo, block.hi)|
    ensures LaneOffsets(flags, block, counter, offsets)
  {
    var active := flags[block.lo..block.hi];
    next, offsets := Reserve(counter, active);
    OnesSlice(flags, block.lo, block.hi, |active|);
    forall l | 0 <= l < |offsets|
      ensures offsets[l] ==
        if flags[block.lo + l] then counter + Ones(flags, block.lo + l) - Ones(flags, block.lo) else -1
    {
      OnesSlice(flags, block.lo, block.hi, l);
    }
  }

  lemma OverwriteOneMore<T>(
      cands: seq<Pair>, emit: Pair -> T, list: seq<nat>, i: nat, first: nat, offset: nat, limit: nat,
      before: seq<T>, middle: seq<T>, after: seq<T>)
    requires (forall j :: 0 <= j < |list| ==> list[j] < |cands|) && i < |cands|
    requires Overwrites(cands, emit, list, first, offset, limit, before, middle)
    requires after == if first + |list| < limit then middle[offset + first + |list| := emit(cands[i])] else middle
    ensures Overwrites(cands, emit, list + [i], first, offset, limit, before, after)
  {
  }

  /** One lane's write. Only a guarded one is checked against the limit; the other kind must
      be known to stay below it. */
  method WriteLane<T>(
      cands: seq<Pair>, emit: Pair -> T, i: nat, slot: nat, offset: nat, limit: nat, guarded: bool, output: array<T>,
      ghost list: seq<nat>, ghost first: nat, ghost before: seq<T>)
    requires i < |cands| && offset + limit <= output.Length && slot == first + |list| && (guarded || slot < limit)
    requires forall j :: 0 <= j < |list| ==> list[j] < |cands|
    requires Overwrites(cands, emit, list, first, offset, limit, before, output[..])
    modifies output
    ensures Overwrites(cands, emit, list + [i], first, offset, limit, before, output[..])
  {
    ghost var middle := output[..];
    if !guarded || slot < limit {
      output[offset + slot] := emit(cands[i]);
    }
    OverwriteOneMore(cands, emit, list, i, first, offset, limit, before, middle, output[..]);
  }

  lemma LaterLaneFits(flags: seq<bool>, lo: nat, i: nat, hi: nat)
    requires lo <= i < hi <= |flags| && flags[i]
    ensures |FlaggedList(flags, lo, i)| < |FlaggedList(flags, lo, hi)|
  {
    FlaggedListAt(flags, lo, hi, i);
  }

  /** Write the flagged lanes of one block at the offsets they reserved. */
  method WriteLanes<T>(
      cands: seq<Pair>, emit: Pair -> T, flags: seq<bool>, block: Block, offsets: seq<int>, offset: nat, limit: nat,
      guarded: bool, output: array<T>, ghost first: nat)
    requires |cands| == |flags| && offset + limit <= output.Length
    requires LaneOffsets(flags, block, first, offsets)
    requires guarded || FlaggedList(flags, block.lo, block.hi) == [] ||
      first + |FlaggedList(flags, block.lo, block.hi)| <= limit
    modifies output
    ensures forall j :: 0 <= j < |FlaggedList(flags, block.lo, block.hi)| ==>
      FlaggedList(flags, block.lo, block.hi)[j] < |cands|
    ensures Overwrites(cands, emit, FlaggedList(flags, block.lo, block.hi), first, offset, limit,
                       old(output[..]), output[..])
  {
    ghost var before := output[..];
    ghost var list: seq<nat> := [];
    for l := 0 to |offsets|
      invariant list == FlaggedList(flags, block.lo, block.lo + l)
      invariant forall j :: 0 <= j < |list| ==> list[j] < |cands|
      invariant Overwrites(cands, emit, list, first, offset, limit, before, output[..])
    {
      var i := block.lo + l;
      if flags[i] {
        OnesMonotone(flags, block.lo, i);
        LaterLaneFits(flags, block.lo, i, block.hi);
        WriteLane(cands, emit, i, offsets[l], offset, limit, guarded, output, list, first, before);
        list := list + [i];
      }
    }
  }

  lemma {:induction false} OneMoreSet(flags: seq<bool>, b: nat, n: nat)
    requires b < |flags| && !flags[b] && n <= |flags|
    ensures Ones(flags[b := true], n) == Ones(flags, n) + if b < n then 1 else 0
  {
    if n > 0 {
      OneMoreSet(flags, b, n - 1);
    }
  }

  /** One reservation channel of a phase: the shared atomic counter, and per block whether
      it has reserved, where, and its lanes' offsets. */
  datatype Channel = Channel(counter: nat, started: seq<bool>, base: seq<nat>, offsets: seq<seq<int>>)

  function NewChannel(n: nat): Channel {
    Channel(0, seq(n, b => false), seq(n, b => 0), seq(n, b => []))
  }

  ghost predicate ChannelInvariant<T>(
      cands: seq<Pair>, emit: Pair -> T, flags: seq<bool>, blocks: seq<Block>, c: Channel, log: seq<nat>,
      written: seq<bool>, offset: nat, limit: nat, out: seq<T>, writes: seq<nat>)
  {
    && c.counter == |log|
    && Registers(flags, blocks, c.started, c.base, c.offsets)
    && Placed(cands, emit, flags, blocks, c.started, written, c.base, log, offset, limit, out, writes)
  }

  /** A block's atomic reservation on one channel. */
  method ReserveStep<T>(
      cands: seq<Pair>, emit: Pair -> T, flags: seq<bool>, blocks: seq<Block>, c: Channel, ghost log: seq<nat>,
      ghost written: seq<bool>, ghost offset: nat, ghost limit: nat, ghost out: seq<T>, ghost writes: seq<nat>, b: nat)
    returns (c': Channel, ghost log': seq<nat>)
    requires ChannelInvariant(cands, emit, flags, blocks, c, log, written, offset, limit, out, writes)
    requires b < |blocks| && !c.started[b]
    ensures c'.started == c.started[b := true]
    ensures ChannelInvariant(cands, emit, flags, blocks, c', log', written, offset, limit, out, writes)
  {
    ReserveKeepsPlaced(cands, emit, flags, blocks, c.started, written, c.base, log, offset, limit, out, writes, b);
    var next, offsets := ReserveBlock(c.counter, flags, blocks[b]);
    c' := Channel(next, c.started[b := true], c.base[b := c.counter], c.offsets[b := offsets]);
    log' := log + FlaggedList(flags, blocks[b].lo, blocks[b].hi);
  }

  /** On a channel with a slot for every flagged position a block's slots stay below the
      limit, so its writes need no guard. */
  lemma ReservedFits(flags: seq<bool>, blocks: seq<Block>, started: seq<bool>, base: seq<nat>, log: seq<nat>, b: nat)
    requires Cursor(flags, blocks, started, base, log) && b < |blocks| && started[b]
    ensures
      var list := FlaggedList(flags, blocks[b].lo, blocks[b].hi);
      list == [] || base[b] + |list| <= |Flagged(flags)|
  {
    var list := FlaggedList(flags, blocks[b].lo, blocks[b].hi);
    CursorIsBounded(flags, blocks, started, base, log);
    if list != [] {
      OwnedInterval(flags, blocks, started, base, log, b, |list| - 1);
    }
  }

  /** A block's lanes write the slots they reserved on both channels; only the ties are
      checked against the number needed. */
  method WriteStep<T>(
      cands: seq<Pair>, emit: Pair -> T, above: seq<bool>, equal: seq<bool>, blocks: seq<Block>, g: Channel, e: Channel,
      ghost gLog: seq<nat>, ghost eLog: seq<nat>, ghost written: seq<bool>, total: nat, needed: nat,
      output: array<T>, ghost writes: seq<nat>, b: nat)
    returns (ghost writes': seq<nat>)
    requires total + needed == output.Length && total == |Flagged(above)|
    requires ChannelInvariant(cands, emit, above, blocks, g, gLog, written, 0, total, output[..], writes)
    requires ChannelInvariant(cands, emit, equal, blocks, e, eLog, written, total, needed, output[..], writes)
    requires b < |blocks| && g.started[b] && e.started[b] && !written[b]
    modifies output
    ensures ChannelInvariant(cands, emit, above, blocks, g, gLog, written[b := true], 0, total, output[..], writes')
    ensures ChannelInvariant(cands, emit, equal, blocks, e, eLog, written[b := true], total, needed, output[..],
      writes')
  {
    ghost var first := output[..];
    ReservedFits(above, blocks, g.started, g.base, gLog, b);
    WriteLanes(cands, emit, above, blocks[b], g.offsets[b], 0, total, false, output, g.base[b]);
    ghost var second := output[..];
    ghost var gCount := |FlaggedList(above, blocks[b].lo, blocks[b].hi)|;
    ghost var middle := CountWrites(writes, gCount, g.base[b], 0, total);
    WriteKeepsPlaced(cands, emit, above, blocks, g.started, written, g.base, gLog, 0, total, first, writes, b, second);
    WriteSparesOther(cands, emit, equal, blocks, e.started, written, e.base, eLog, total, needed, first, writes,
      second, middle);
    WriteLanes(cands, emit, equal, blocks[b], e.offsets[b], total, needed, true, output, e.base[b]);
    ghost var eCount := |FlaggedList(equal, blocks[b].lo, blocks[b].hi)|;
    writes' := CountWrites(middle, eCount, e.base[b], total, needed);
    WriteKeepsPlaced(cands, emit, equal, blocks, e.started, written, e.base, eLog, total, needed, second, middle, b,
      output[..]);
    WriteSparesOther(cands, emit, above, blocks, g.started, written[b := true], g.base, gLog, 0, total,
                     second, middle, output[..], writes');
  }

  /** The outcome of an emission: the output lists the candidates at `chosen`, which are
      all the positions flagged above followed by `needed` distinct ones flagged equal,
      and every output slot was written exactly once. */
  ghost predicate IsEmission<T>(
      cands: seq<Pair>, emit: Pair -> T, above: seq<bool>, equal: seq<bool>, needed: nat,
      out: seq<T>, chosen: seq<nat>, writes: seq<nat>)
  {
    var total := |Flagged(above)|;
    && |chosen| == |writes| == |out| == total + needed
    && NoDuplicates(chosen[..total]) && Members(chosen[..total]) == Flagged(above)
    && NoDuplicates(chosen[total..]) && Members(chosen[total..]) <= Flagged(equal)
    && forall s :: 0 <= s < |out| ==> chosen[s] < |cands| && writes[s] == 1 && out[s] == emit(cands[chosen[s]])
  }

  /** The slots from `offset` on hold the logged candidates, each written once. */
  ghost predicate SlotsHold<T>(
      cands: seq<Pair>, emit: Pair -> T, log: seq<nat>, offset: nat, limit: nat, out: seq<T>, writes: seq<nat>)
  {
    && limit <= |log| && offset + limit <= |out| == |writes|
    && forall j :: 0 <= j < limit ==>
      log[j] < |cands| && writes[offset + j] == 1 && out[offset + j] == emit(cands[log[j]])
  }

  /** A channel all of whose blocks have written: its log lists every flagged position and
      its slots hold the logged candidates, each written once. */
  lemma ChannelComplete<T>(
      cands: seq<Pair>, emit: Pair -> T, flags: seq<bool>, blocks: seq<Block>, c: Channel, log: seq<nat>,
      written: seq<bool>, offset: nat, limit: nat, out: seq<T>, writes: seq<nat>)
    requires ChannelInvariant(cands, emit, flags, blocks, c, log, written, offset, limit, out, writes)
    requires CoversFlags(blocks, flags) && limit <= |Flagged(flags)| && offset + limit <= |out| == |writes|
    requires forall b :: 0 <= b < |blocks| ==> written[b]
    ensures Members(log) == Flagged(flags) && |log| == |Flagged(flags)| && NoDuplicates(log)
    ensures SlotsHold(cands, emit, log, offset, limit, out, writes)
  {
    CursorIsComplete(flags, blocks, c.started, c.base, log);
    forall j | 0 <= j < limit
      ensures log[j] < |cands| && writes[offset + j] == 1 && out[offset + j] == emit(cands[log[j]])
    {
      SlotIsPlaced(cands, emit, flags, blocks, c.started, written, c.base, log, offset, limit, out, writes, j);
    }
  }

  lemma JoinChannels<T>(
      cands: seq<Pair>, emit: Pair -> T, above: seq<bool>, equal: seq<bool>, gLog: seq<nat>, eLog: seq<nat>,
      total: nat, needed: nat, out: seq<T>, writes: seq<nat>)
    requires |gLog| == total == |Flagged(above)| && needed <= |eLog| && |out| == |writes| == total + needed
    requires NoDuplicates(gLog) && Members(gLog) == Flagged(above) && NoDuplicates(eLog) &&
      Members(eLog) == Flagged(equal)
    requires SlotsHold(cands, emit, gLog, 0, total, out, writes) &&
      SlotsHold(cands, emit, eLog, total, needed, out, writes)
    ensures IsEmission(cands, emit, above, equal, needed, out, gLog + eLog[..needed], writes)
  {
    var chosen := gLog + eLog[..needed];
    assert chosen[..total] == gLog && chosen[total..] == eLog[..needed];
    assert Members(eLog[..needed]) <= Members(eLog);
    forall s | 0 <= s < |out|
      ensures chosen[s] < |cands| && writes[s] == 1 && out[s] == emit(cands[chosen[s]])
    {
      if s < total {
        assert writes[0 + s] == 1;
      } else {
        assert chosen[s] == eLog[s - total] && writes[total + (s - total)] == 1;
      }
    }
  }

  lemma EmissionComplete<T>(
      cands: seq<Pair>, emit: Pair -> T, above: seq<bool>, equal: seq<bool>, blocks: seq<Block>, g: Channel, e: Channel,
      gLog: seq<nat>, eLog: seq<nat>, written: seq<bool>, total: nat, needed: nat, out: seq<T>, writes: seq<nat>)
    requires ChannelInvariant(cands, emit, above, blocks, g, gLog, written, 0, total, out, writes)
    requires ChannelInvariant(cands, emit, equal, blocks, e, eLog, written, total, needed, out, writes)
    requires CoversFlags(blocks, above) && CoversFlags(blocks, equal)
    requires total == |Flagged(above)| && needed <= |Flagged(equal)| && |out| == total + needed
    requires forall b :: 0 <= b < |blocks| ==> written[b]
    ensures |gLog| == total && needed <= |eLog| == |Flagged(equal)|
    ensures IsEmission(cands, emit, above, equal, needed, out, gLog + eLog[..needed], writes)
  {
    ChannelComplete(cands, emit, above, blocks, g, gLog, written, 0, total, out, writes);
    ChannelComplete(cands, emit, equal, blocks, e, eLog, written, total, needed, out, writes);
    JoinChannels(cands, emit, above, equal, gLog, eLog, total, needed, out, writes);
  }

  /** Emit the flagged-above candidates, then enough flagged-equal ones. Every step picks
      any unfinished block and performs its next atomic action, so a run of this loop is
      any interleaving of any number of warps. */
  method Emit<T>(
      cands: seq<Pair>, emit: Pair -> T, above: seq<bool>, equal: seq<bool>, blocks: seq<Block>, needed: nat,
      output: array<T>)
    returns (greaterCounter: nat, equalCounter: nat, ghost chosen: seq<nat>, ghost writes: seq<nat>)
    requires |above| == |equal| == |cands| && ValidBlocks(blocks, |cands|)
    requires CoversFlags(blocks, above) && CoversFlags(blocks, equal)
    requires needed <= |Flagged(equal)| && output.Length == |Flagged(above)| + needed
    modifies output
    ensures greaterCounter == |Flagged(above)| && equalCounter == |Flagged(equal)|
    ensures IsEmission(cands, emit, above, equal, needed, output[..], chosen, writes)
  {
    var total := output.Length - needed;
    var n := |blocks|;
    var g, e := NewChannel(n), NewChannel(n);
    var written := seq(n, b => false);
    ghost var gLog: seq<nat>, eLog: seq<nat> := [], [];
    writes := seq(output.Length, s => 0);
    while exists b :: 0 <= b < n && !written[b]
      invariant |written| == n && |writes| == output.Length
      invariant ChannelInvariant(cands, emit, above, blocks, g, gLog, written, 0, total, output[..], writes)
      invariant ChannelInvariant(cands, emit, equal, blocks, e, eLog, written, total, needed, output[..], writes)
      decreases 3 * n - Ones(g.started, n) - Ones(e.started, n) - Ones(written, n)
    {
      var b :| 0 <= b < n && !written[b];
      if !g.started[b] {
        OneMoreSet(g.started, b, n);
        g, gLog := ReserveStep(cands, emit, above, blocks, g, gLog, written, 0, total, output[..], writes, b);
      } else if !e.started[b] {
        OneMoreSet(e.started, b, n);
        e, eLog := ReserveStep(cands, emit, equal, blocks, e, eLog, written, total, needed, output[..], writes, b);
      } else {
        OneMoreSet(written, b, n);
        writes := WriteStep(cands, emit, above, equal, blocks, g, e, gLog, eLog, written, total, needed, output,
          writes, b);
        written := written[b := true];
      }
    }
    EmissionComplete(cands, emit, above, equal, blocks, g, e, gLog, eLog, written, total, needed, output[..], writes);
    greaterCounter, equalCounter, chosen := g.counter, e.counter, gLog + eLog[..needed];
  }

  // ---------- from runs of live positions to warp batches ----------

  /** Cut one run into warp batches of 32, the last one partial. */
  function Batches(lo: nat, hi: nat): (blocks: seq<Block>)
    requires lo <= hi
    decreases hi - lo
  {
    if lo == hi then []
    else if hi - lo <= WARP_SIZE then [Block(lo, hi)]
    else [Block(lo, lo + WARP_SIZE)] + Batches(lo + WARP_SIZE, hi)
  }

  lemma InsideBlock(blocks: seq<Block>, b: nat, i: nat)
    requires b < |blocks| && InBlock(blocks, b, i)
    ensures InRuns(blocks, i)
  {
  }

  lemma {:induction false} BatchesTileRun(lo: nat, hi: nat)
    requires lo <= hi
    ensures forall b :: 0 <= b < |Batches(lo, hi)| ==>
      lo <= Batches(lo, hi)[b].lo < Batches(lo, hi)[b].hi <= hi &&
        Batches(lo, hi)[b].hi - Batches(lo, hi)[b].lo <= WARP_SIZE
    ensures ValidBlocks(Batches(lo, hi), hi)
    ensures forall i: nat :: lo <= i < hi ==> InRuns(Batches(lo, hi), i)
    decreases hi - lo
  {
    if lo < hi {
      if hi - lo <= WARP_SIZE {
        forall i: nat | lo <= i < hi ensures InRuns(Batches(lo, hi), i) {
          InsideBlock(Batches(lo, hi), 0, i);
        }
      } else {
        var rest := Batches(lo + WARP_SIZE, hi);
        BatchesTileRun(lo + WARP_SIZE, hi);
        forall i: nat | lo <= i < hi ensures InRuns(Batches(lo, hi), i) {
          if i < lo + WARP_SIZE {
            InsideBlock(Batches(lo, hi), 0, i);
          } else {
            assert InRuns(rest, i);
            var b :| 0 <= b < |rest| && InBlock(rest, b, i);
            InsideBlock(Batches(lo, hi), b + 1, i);
          }
        }
      }
    }
  }

  function AllBatches(runs: seq<Block>): (blocks: seq<Block>)
    requires forall r :: 0 <= r < |runs| ==> runs[r].lo <= runs[r].hi
  {
    if runs == [] then []
    else AllBatches(runs[..|runs| - 1]) + Batches(runs[|runs| - 1].lo, runs[|runs| - 1].hi)
  }

  lemma ConcatBlocks(a: seq<Block>, b: seq<Block>, i: nat)
    requires InRuns(a, i) || InRuns(b, i)
    ensures InRuns(a + b, i)
  {
    if InRuns(a, i) {
      var x :| 0 <= x < |a| && InBlock(a, x, i);
      InsideBlock(a + b, x, i);
    } else {
      var x :| 0 <= x < |b| && InBlock(b, x, i);
      InsideBlock(a + b, |a| + x, i);
    }
  }

  /** Batching neither overlaps nor misses: it covers exactly the live positions. */
  lemma {:induction false} AllBatchesTileRuns(runs: seq<Block>, n: nat)
    requires ValidBlocks(runs, n)
    ensures ValidBlocks(AllBatches(runs), if runs == [] then 0 else runs[|runs| - 1].hi)
    ensures forall i: nat :: InRuns(runs, i) ==> InRuns(AllBatches(runs), i)
  {
    if runs != [] {
      var front, last := runs[..|runs| - 1], runs[|runs| - 1];
      AllBatchesTileRuns(front, n);
      BatchesTileRun(last.lo, last.hi);
      forall i: nat | InRuns(runs, i) ensures InRuns(AllBatches(runs), i) {
        var r :| 0 <= r < |runs| && InBlock(runs, r, i);
        if r < |front| {
          InsideBlock(front, r, i);
        }
        ConcatBlocks(AllBatches(front), Batches(last.lo, last.hi), i);
      }
    }
  }

  /** The positions inside some run. */
  function RunPositions(runs: seq<Block>): (positions: set<nat>)
    ensures forall i: nat :: i in positions <==> InRuns(runs, i)
  {
    if runs == [] then {}
    else
      var front, last := runs[..|runs| - 1], runs[|runs| - 1];
      assert runs == front + [last];
      LastRun(front, last);
      RunPositions(front) + Interval(last.lo, last.hi)
  }

  lemma RunsConcat(a: seq<Block>, b: seq<Block>, n: nat)
    requires ValidBlocks(a + b, n)
    ensures RunPositions(a + b) == RunPositions(a) + RunPositions(b)
    ensures RunPositions(a) !! RunPositions(b)
  {
    forall i: nat ensures InRuns(a + b, i) <==> InRuns(a, i) || InRuns(b, i) {
      if InRuns(a, i) || InRuns(b, i) {
        ConcatBlocks(a, b, i);
      }
      if InRuns(a + b, i) {
        var x :| 0 <= x < |a + b| && InBlock(a + b, x, i);
        if x < |a| { InsideBlock(a, x, i); } else { InsideBlock(b, x - |a|, i); }
      }
    }
    forall x, y | 0 <= x < |a| && 0 <= y < |b| ensures a[x].hi <= b[y].lo {
      assert (a + b)[x] == a[x] && (a + b)[|a| + y] == b[y];
    }
    forall i: nat | InRuns(a, i) ensures !InRuns(b, i) {
      var x :| 0 <= x < |a| && InBlock(a, x, i);
    }
  }

  lemma LastRun(front: seq<Block>, last: Block)
    ensures forall i: nat :: InRuns(front + [last], i) <==> InRuns(front, i) || last.lo <= i < last.hi
  {
    forall i: nat ensures InRuns(front + [last], i) <==> InRuns(front, i) || last.lo <= i < last.hi {
      if InRuns(front, i) {
        ConcatBlocks(front, [last], i);
      }
      if last.lo <= i < last.hi {
        InsideBlock(front + [last], |front|, i);
      }
      if InRuns(front + [last], i) {
        var b :| 0 <= b <= |front| && InBlock(front + [last], b, i);
        if b < |front| {
          InsideBlock(front, b, i);
        }
      }
    }
  }

  function TotalLength(runs: seq<Block>): int {
    if runs == [] then 0
    else TotalLength(runs[..|runs| - 1]) + runs[|runs| - 1].hi - runs[|runs| - 1].lo
  }

  lemma {:induction false} RunCardinality(runs: seq<Block>, n: nat)
    requires ValidBlocks(runs, n)
    ensures |RunPositions(runs)| == TotalLength(runs)
  {
    if runs != [] {
      var front, last := runs[..|runs| - 1], runs[|runs| - 1];
      RunCardinality(front, n);
      assert RunPositions(front) !! Interval(last.lo, last.hi);
    }
  }

  // ---------- emission yields an exact Top-K ----------

  function Keys(cands: seq<Pair>): (keys: seq<nat>)
    ensures |keys| == |cands|
    ensures forall i :: 0 <= i < |cands| ==> keys[i] == cands[i].key
  {
    seq(|cands|, i requires 0 <= i < |cands| => cands[i].key)
  }

  /** The pairs held at the live positions. */
  ghost function PairsAt(cands: seq<Pair>, live: set<nat>): set<Pair> {
    set i | i in live && i < |cands| :: cands[i]
  }

  ghost predicate DistinctPairs(cands: seq<Pair>, live: set<nat>) {
    forall i, j :: i in live && j in live && i < j < |cands| ==> cands[i] != cands[j]
  }

  lemma {:induction false} PairsAtCardinality(cands: seq<Pair>, live: set<nat>)
    requires DistinctPairs(cands, live) && forall i :: i in live ==> i < |cands|
    ensures |PairsAt(cands, live)| == |live|
    decreases |live|
  {
    if live == {} {
      assert PairsAt(cands, live) == {};
    } else {
      var i :| i in live;
      PairsAtCardinality(cands, live - {i});
      assert PairsAt(cands, live) == PairsAt(cands, live - {i}) + {cands[i]};
      assert cands[i] !in PairsAt(cands, live - {i});
    }
  }

  function Gather(cands: seq<Pair>, positions: seq<nat>): (pairs: seq<Pair>)
    requires forall s :: 0 <= s < |positions| ==> positions[s] < |cands|
    ensures |pairs| == |positions|
  {
    seq(|positions|, s requires 0 <= s < |positions| => cands[positions[s]])
  }

  /** The chosen positions: first those above the threshold, then ties, none twice. */
  ghost predicate ChoosesTop(cands: seq<Pair>, live: set<nat>, k: nat, threshold: nat, total: nat, chosen: seq<nat>) {
    && |chosen| == k && total <= k && NoDuplicates(chosen)
    && (forall s :: 0 <= s < k ==> chosen[s] < |cands| && chosen[s] in live && cands[chosen[s]].key >= threshold)
    && forall i :: i in live && i < |cands| && cands[i].key > threshold ==> i in chosen
  }

  lemma EmissionChooses<T>(
      cands: seq<Pair>, emit: Pair -> T, live: set<nat>, k: nat, threshold: nat, needed: nat,
      above: seq<bool>, equal: seq<bool>, out: seq<T>, chosen: seq<nat>, writes: seq<nat>)
    requires |above| == |equal| == |cands| && ValidKeys(Keys(cands), live)
    requires IsKthLargest(Keys(cands), live, k, threshold, needed)
    requires forall i :: 0 <= i < |cands| ==>
      above[i] == (i in live && cands[i].key > threshold) && equal[i] == (i in live && cands[i].key == threshold)
    requires IsEmission(cands, emit, above, equal, needed, out, chosen, writes)
    ensures |out| == k && ChoosesTop(cands, live, k, threshold, |Flagged(above)|, chosen)
  {
    var total := |Flagged(above)|;
    var front, back := chosen[..total], chosen[total..];
    assert chosen == front + back;
    assert Flagged(above) == Between(Keys(cands), live, threshold + 1, KEY_SPACE);
    forall s | 0 <= s < k
      ensures chosen[s] < |cands| && chosen[s] in live && cands[chosen[s]].key >= threshold
      ensures s < total <==> cands[chosen[s]].key > threshold
    {
      if s < total {
        assert front[s] in Members(front);
      } else {
        assert back[s - total] in Members(back);
      }
    }
    forall i | i in live && i < |cands| && cands[i].key > threshold ensures i in chosen {
      assert i in Members(front);
    }
  }

  /** Distinct positions of distinct pairs gather distinct pairs. */
  lemma GatherDistinct(cands: seq<Pair>, live: set<nat>, chosen: seq<nat>)
    requires DistinctPairs(cands, live) && NoDuplicates(chosen)
    requires forall s :: 0 <= s < |chosen| ==> chosen[s] < |cands| && chosen[s] in live
    ensures NoDuplicates(Gather(cands, chosen)) && Members(Gather(cands, chosen)) <= PairsAt(cands, live)
  {
    forall a, b | 0 <= a < b < |chosen| ensures Gather(cands, chosen)[a] != Gather(cands, chosen)[b] {
      assert chosen[a] < chosen[b] || chosen[b] < chosen[a];
    }
  }

  lemma ChosenIsTopK(cands: seq<Pair>, live: set<nat>, k: nat, threshold: nat, total: nat, chosen: seq<nat>)
    requires DistinctPairs(cands, live) && ChoosesTop(cands, live, k, threshold, total, chosen)
    ensures NoDuplicates(Gather(cands, chosen))
    ensures IsTopK(PairsAt(cands, live), Members(Gather(cands, chosen)), k)
  {
    var picked := Gather(cands, chosen);
    GatherDistinct(cands, live, chosen);
    NoDuplicatesCardinality(picked);
    SubsetCardinality(Members(picked), PairsAt(cands, live));
    forall i | i in live && i < |cands| && cands[i].key > threshold ensures cands[i] in Members(picked) {
      var t :| 0 <= t < k && chosen[t] == i;
      assert picked[t] == cands[i];
    }
    forall p, q | p in Members(picked) && q in PairsAt(cands, live) && q !in Members(picked)
      ensures q.key <= p.key
    {
      var s :| 0 <= s < k && picked[s] == p;
      var i :| i in live && i < |cands| && cands[i] == q;
    }
  }

  /** With the k-th largest key as threshold, what emission writes is an exact Top-k. */
  lemma EmissionIsTopK<T>(
      cands: seq<Pair>, emit: Pair -> T, live: set<nat>, k: nat, threshold: nat, needed: nat,
      above: seq<bool>, equal: seq<bool>, out: seq<T>, chosen: seq<nat>, writes: seq<nat>)
    requires |above| == |equal| == |cands| && ValidKeys(Keys(cands), live) && DistinctPairs(cands, live)
    requires IsKthLargest(Keys(cands), live, k, threshold, needed)
    requires forall i :: 0 <= i < |cands| ==>
      above[i] == (i in live && cands[i].key > threshold) && equal[i] == (i in live && cands[i].key == threshold)
    requires IsEmission(cands, emit, above, equal, needed, out, chosen, writes)
    ensures |out| == k && NoDuplicates(Gather(cands, chosen))
    ensures IsTopK(PairsAt(cands, live), Members(Gather(cands, chosen)), k)
  {
    EmissionChooses(cands, emit, live, k, threshold, needed, above, equal, out, chosen, writes);
    ChosenIsTopK(cands, live, k, threshold, |Flagged(above)|, chosen);
  }

  /** A completed selection: the output lists, through `emit`, an exact Top-k of the pool. */
  ghost predicate IsSelection<T>(pool: set<Pair>, k: nat, emit: Pair -> T, out: seq<T>, picked: seq<Pair>) {
    && |out| == |picked| == k && NoDuplicates(picked)
    && IsTopK(pool, Members(picked), k)
    && forall j :: 0 <= j < k ==> out[j] == emit(picked[j])
  }

  function AboveFlags(cands: seq<Pair>, live: set<nat>, threshold: nat): (flags: seq<bool>)
    ensures |flags| == |cands|
    ensures forall i :: 0 <= i < |cands| ==> flags[i] == (i in live && cands[i].key > threshold)
  {
    seq(|cands|, i requires 0 <= i < |cands| => i in live && cands[i].key > threshold)
  }

  function EqualFlags(cands: seq<Pair>, live: set<nat>, threshold: nat): (flags: seq<bool>)
    ensures |flags| == |cands|
    ensures forall i :: 0 <= i < |cands| ==> flags[i] == (i in live && cands[i].key == threshold)
  {
    seq(|cands|, i requires 0 <= i < |cands| => i in live && cands[i].key == threshold)
  }

  /** The flags split the live positions at the threshold. */
  lemma FlagsAreBands(cands: seq<Pair>, live: set<nat>, threshold: nat)
    requires ValidKeys(Keys(cands), live)
    ensures Flagged(AboveFlags(cands, live, threshold)) == Between(Keys(cands), live, threshold + 1, KEY_SPACE)
    ensures Flagged(EqualFlags(cands, live, threshold)) == Between(Keys(cands), live, threshold, threshold + 1)
  {
  }

  lemma BatchesCoverFlags(cands: seq<Pair>, runs: seq<Block>, threshold: nat)
    requires ValidBlocks(runs, |cands|)
    ensures ValidBlocks(AllBatches(runs), |cands|)
    ensures CoversFlags(AllBatches(runs), AboveFlags(cands, RunPositions(runs), threshold))
    ensures CoversFlags(AllBatches(runs), EqualFlags(cands, RunPositions(runs), threshold))
  {
    AllBatchesTileRuns(runs, |cands|);
  }

  /** The whole emission phase: flag, batch, reserve and write. */
  method EmitSelected<T>(
      cands: seq<Pair>, emit: Pair -> T, runs: seq<Block>, threshold: nat, needed: nat, ghost k: nat, output: array<T>)
    returns (greaterCounter: nat, equalCounter: nat, ghost picked: seq<Pair>)
    requires ValidBlocks(runs, |cands|) && output.Length == k
    requires ValidKeys(Keys(cands), RunPositions(runs)) && DistinctPairs(cands, RunPositions(runs))
    requires IsKthLargest(Keys(cands), RunPositions(runs), k, threshold, needed)
    modifies output
    ensures greaterCounter == k - needed && equalCounter >= needed
    ensures IsSelection(PairsAt(cands, RunPositions(runs)), k, emit, output[..], picked)
  {
    var live := RunPositions(runs);
    var above, equal := AboveFlags(cands, live, threshold), EqualFlags(cands, live, threshold);
    FlagsAreBands(cands, live, threshold);
    BatchesCoverFlags(cands, runs, threshold);
    ghost var chosen, writes;
    greaterCounter, equalCounter, chosen, writes := Emit(cands, emit, above, equal, AllBatches(runs), needed, output);
    EmissionIsTopK(cands, emit, live, k, threshold, needed, above, equal, output[..], chosen, writes);
    picked := Gather(cands, chosen);
  }
}
