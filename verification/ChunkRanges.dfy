/** The per-chunk causal ranges of the repair: how a row's range is cut at 16K columns. */
module ChunkRanges {
  import opened Arithmetic

  /** A row bound moved into a chunk's own coordinates and clamped to its width. */
  function ChunkBound(bound: int, chunk: nat, chunkElements: nat, columns: nat): int {
    var offset := chunk * chunkElements;
    Min(Min(chunkElements, columns - offset), Max(0, bound - offset))
  }

  /** Where a bound lies relative to the piece of the columns that begins at `offset`: before it,
      inside it, or past its end. */
  ghost predicate IsClamped(moved: int, bound: int, offset: nat, chunkElements: nat, columns: nat) {
    && 0 <= moved <= chunkElements && offset + moved <= columns
    && (moved == 0 || offset + moved <= bound)
    && (moved == chunkElements || offset + moved == columns || bound <= offset + moved)
  }

  /** The same for entry `i` of a flat tensor over these bounds. */
  ghost predicate EntryClamped(moved: int, bounds: seq<int>, i: nat, chunkElements: nat, columns: nat)
    requires |bounds| > 0
  {
    var offset := i / |bounds| * chunkElements;
    offset <= columns ==> IsClamped(moved, bounds[i % |bounds|], offset, chunkElements, columns)
  }

  lemma ClampedBound(bound: int, chunk: nat, chunkElements: nat, columns: nat)
    requires chunk * chunkElements <= columns
    ensures IsClamped(ChunkBound(bound, chunk, chunkElements, columns), bound, chunk * chunkElements, chunkElements,
                      columns)
  {
  }

  lemma {:induction false} AllClamped(
      flat: seq<int>, bounds: seq<int>, chunks: nat, chunkElements: nat, columns: nat)
    requires |bounds| > 0 && IsChunkTensor(flat, bounds, chunks, chunkElements, columns)
    ensures forall i {:trigger EntryClamped(flat[i], bounds, i, chunkElements, columns)} ::
      0 <= i < |flat| ==> EntryClamped(flat[i], bounds, i, chunkElements, columns)
  {
    forall i | 0 <= i < |flat| ensures EntryClamped(flat[i], bounds, i, chunkElements, columns) {
      OneClamped(flat[i], bounds, i, i / |bounds|, chunkElements, columns);
    }
  }

  lemma OneClamped(moved: int, bounds: seq<int>, i: nat, chunk: nat, chunkElements: nat, columns: nat)
    requires |bounds| > 0 && chunk == i / |bounds|
    requires moved == ChunkBound(bounds[i % |bounds|], chunk, chunkElements, columns)
    ensures EntryClamped(moved, bounds, i, chunkElements, columns)
  {
    if chunk * chunkElements <= columns { ClampedBound(bounds[i % |bounds|], chunk, chunkElements, columns); }
  }

  /** The flat tensor holds, chunk by chunk, every row's bound moved into that chunk. */
  ghost predicate IsChunkTensor(flat: seq<int>, bounds: seq<int>, chunks: nat, chunkElements: nat, columns: nat)
    requires |bounds| > 0
  {
    && |flat| == chunks * |bounds|
    && forall i :: 0 <= i < |flat| ==> flat[i] == ChunkBound(bounds[i % |bounds|], i / |bounds|, chunkElements, columns)
  }

  /** One of the two tensors, entry by entry. */
  method MoveBounds(bounds: seq<int>, flat: array<int>, chunkElements: nat, columns: nat, chunks: nat)
    requires |bounds| > 0 && flat.Length == chunks * |bounds|
    modifies flat
    ensures IsChunkTensor(flat[..], bounds, chunks, chunkElements, columns)
  {
    forall i | 0 <= i < chunks * |bounds| {
      flat[i] := ChunkBound(bounds[i % |bounds|], i / |bounds|, chunkElements, columns);
    }
  }

  /** One thread per (chunk, row) entry, in any order. */
  method UpdateChunkRanges(
      starts: seq<int>, ends: seq<int>, chunkStarts: array<int>, chunkEnds: array<int>, chunkElements: nat,
      columns: nat, chunks: nat)
    requires |starts| == |ends| > 0 && chunkStarts != chunkEnds
    requires chunkStarts.Length == chunkEnds.Length == chunks * |starts|
    modifies chunkStarts, chunkEnds
    ensures IsChunkTensor(chunkStarts[..], starts, chunks, chunkElements, columns)
    ensures IsChunkTensor(chunkEnds[..], ends, chunks, chunkElements, columns)
    ensures forall i {:trigger EntryClamped(chunkStarts[i], starts, i, chunkElements, columns)} ::
      0 <= i < chunkStarts.Length ==> EntryClamped(chunkStarts[i], starts, i, chunkElements, columns)
    ensures forall i {:trigger EntryClamped(chunkEnds[i], ends, i, chunkElements, columns)} ::
      0 <= i < chunkEnds.Length ==> EntryClamped(chunkEnds[i], ends, i, chunkElements, columns)
  {
    MoveBounds(starts, chunkStarts, chunkElements, columns, chunks);
    MoveBounds(ends, chunkEnds, chunkElements, columns, chunks);
    AllClamped(chunkStarts[..], starts, chunks, chunkElements, columns);
    AllClamped(chunkEnds[..], ends, chunks, chunkElements, columns);
  }

  /** Entry (chunk, row) of the flat tensors. */
  lemma EntryIndex(chunk: nat, chunks: nat, row: nat, rows: nat)
    requires chunk < chunks && row < rows
    ensures chunk * rows + row < chunks * rows
    ensures (chunk * rows + row) / rows == chunk && (chunk * rows + row) % rows == row
  {
    ScaledStep(chunk, chunks, rows);
    QuotientAndRemainder(chunk * rows + row, rows, chunk, row);
  }

  /** Where the part of the range before chunk `chunk` ends. */
  function SeenEnd(start: nat, end: nat, chunk: nat, chunkElements: nat): (seen: nat)
    requires start <= end
    ensures start <= seen <= end
  {
    Max(start, Min(end, chunk * chunkElements))
  }

  /** The ID lies in the chunk's interval, shifted back to the row's coordinates. */
  ghost predicate InChunk(start: nat, end: nat, columns: nat, chunkElements: nat, chunk: nat, id: nat) {
    chunk * chunkElements + ChunkBound(start, chunk, chunkElements, columns) <= id
      < chunk * chunkElements + ChunkBound(end, chunk, chunkElements, columns)
  }

  /** A chunk's shifted interval is exactly the next piece of the range. */
  lemma ChunkIsNextPiece(start: nat, end: nat, columns: nat, chunk: nat, chunkElements: nat)
    requires start <= end <= columns && chunk * chunkElements <= columns
    ensures
      var lo, hi := ChunkBound(start, chunk, chunkElements, columns), ChunkBound(end, chunk, chunkElements, columns);
      var offset := chunk * chunkElements;
      && 0 <= lo <= hi <= Min(chunkElements, columns - offset)
      && hi - lo == SeenEnd(start, end, chunk + 1, chunkElements) - SeenEnd(start, end, chunk, chunkElements)
      && forall id: nat :: InChunk(start, end, columns, chunkElements, chunk, id) <==>
           SeenEnd(start, end, chunk, chunkElements) <= id < SeenEnd(start, end, chunk + 1, chunkElements)
  {
    assert (chunk + 1) * chunkElements == chunk * chunkElements + chunkElements;
  }

  ghost predicate InSomeChunk(start: nat, end: nat, columns: nat, chunkElements: nat, chunks: nat, id: nat) {
    exists c: nat :: c < chunks && InChunk(start, end, columns, chunkElements, c, id)
  }

  lemma InChunkBounds(start: nat, end: nat, columns: nat, chunkElements: nat, c: nat, id: nat)
    requires InChunk(start, end, columns, chunkElements, c, id)
    ensures start <= id < end && c * chunkElements <= id < c * chunkElements + chunkElements
  {
  }

  lemma ChunkOf(start: nat, end: nat, columns: nat, chunkElements: nat, chunks: nat, id: nat) returns (c: nat)
    requires start <= id < end <= columns <= chunks * chunkElements && chunkElements > 0
    ensures c < chunks && InChunk(start, end, columns, chunkElements, c, id)
  {
    c := id / chunkElements;
    assert id == c * chunkElements + id % chunkElements;
    if chunks < c { ScaledStep(chunks, c, chunkElements); }
  }

  /** With just enough chunks to reach the columns, the chunk intervals are disjoint,
      cover the range and nothing else, and their lengths add up to it. */
  lemma ChunksPartitionRange(start: nat, end: nat, columns: nat, chunkElements: nat, chunks: nat)
    requires start <= end <= columns && chunkElements > 0
    requires (chunks - 1) * chunkElements <= columns <= chunks * chunkElements
    ensures forall id: nat :: InSomeChunk(start, end, columns, chunkElements, chunks, id) <==> start <= id < end
    ensures forall c: nat, d: nat, id: nat :: c < d && InChunk(start, end, columns, chunkElements, c, id) ==>
      !InChunk(start, end, columns, chunkElements, d, id)
    ensures SumLengths(start, end, columns, chunkElements, chunks) == end - start
  {
    TotalOfPieces(start, end, columns, chunkElements, chunks);
    forall id: nat
      ensures InSomeChunk(start, end, columns, chunkElements, chunks, id) <==> start <= id < end
    {
      if start <= id < end {
        var c := ChunkOf(start, end, columns, chunkElements, chunks, id);
      }
      if c: nat :| c < chunks && InChunk(start, end, columns, chunkElements, c, id) {
        InChunkBounds(start, end, columns, chunkElements, c, id);
      }
    }
    forall c: nat, d: nat, id: nat | c < d && InChunk(start, end, columns, chunkElements, c, id)
      ensures !InChunk(start, end, columns, chunkElements, d, id)
    {
      ScaledStep(c, d, chunkElements);
      InChunkBounds(start, end, columns, chunkElements, c, id);
    }
  }

  ghost function SumLengths(start: nat, end: nat, columns: nat, chunkElements: nat, chunks: nat): int {
    if chunks == 0 then 0
    else
      SumLengths(start, end, columns, chunkElements, chunks - 1) +
      ChunkBound(end, chunks - 1, chunkElements, columns) - ChunkBound(start, chunks - 1, chunkElements, columns)
  }

  lemma {:induction false} TotalOfPieces(start: nat, end: nat, columns: nat, chunkElements: nat, chunks: nat)
    requires start <= end <= columns && chunkElements > 0
    ensures (chunks - 1) * chunkElements <= columns ==>
      SumLengths(start, end, columns, chunkElements, chunks) == SeenEnd(start, end, chunks, chunkElements) - start
  {
    if chunks > 0 && (chunks - 1) * chunkElements <= columns {
      assert (chunks - 1) * chunkElements == (chunks - 2) * chunkElements + chunkElements;
      TotalOfPieces(start, end, columns, chunkElements, chunks - 1);
      ChunkIsNextPiece(start, end, columns, chunks - 1, chunkElements);
    }
  }
}
