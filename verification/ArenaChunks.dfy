/**
 * The chunks of a run on a new arena: how large each is, when one is enough, and what the total size
 * comes to.
 */
module ArenaChunks {
  import opened Arithmetic
  import opened Alignment
  import opened ArenaModel
  import opened ArenaSafety
  import opened ArenaSpace

  // ---------------------------------------------------------------- sizes

  /** The chunk has the default size, or the size and worst padding of a request that needs more. */
  ghost predicate SizedFor(c: Chunk, qs: seq<Request>, defaultSize: nat) {
    c.size >= defaultSize &&
    (c.size == defaultSize || exists i :: 0 <= i < |qs| && c.size == qs[i].size + qs[i].align - 1)
  }

  lemma SizedForMore(c: Chunk, qs: seq<Request>, more: seq<Request>, defaultSize: nat)
    requires SizedFor(c, more, defaultSize)
    ensures SizedFor(c, qs + more, defaultSize)
  {
    if c.size != defaultSize {
      var i :| 0 <= i < |more| && c.size == more[i].size + more[i].align - 1;
      assert (qs + more)[|qs| + i] == more[i];
    }
  }

  /** Every chunk that a run opens has at least the default size, and more only if its first request needs that. */
  lemma {:induction false} ChunkSizes(a: Arena, qs: seq<Request>, i: nat)
    requires Aligned(qs) && |a.chunks| <= i < |After(a, qs).chunks|
    ensures SizedFor(After(a, qs).chunks[i], qs, a.defaultSize)
    decreases |qs|
  {
    var a' := Alloc(a, qs[0]);
    if i < |a'.chunks| {
      ChunksPersist(a', qs[1..]);
    } else {
      ChunkSizes(a', qs[1..], i);
      assert qs == [qs[0]] + qs[1..];
      SizedForMore(After(a, qs).chunks[i], [qs[0]], qs[1..], a.defaultSize);
    }
  }

  // ---------------------------------------------------------------- one chunk

  /** At most one chunk, of the default size, with room for requests of a total weight `w`. */
  ghost predicate RoomFor(a: Arena, w: nat) {
    && a.defaultSize < WORD && w <= a.defaultSize
    && (a.chunks == [] ||
        (|a.chunks| == 1 && a.chunks[0].size == a.defaultSize && a.chunks[0].data <= a.chunks[0].cursor &&
         a.chunks[0].cursor + w <= End(a.chunks[0])))
  }

  lemma RoomStep(a: Arena, q: Request, w: nat)
    requires 0 < q.align && RoomFor(a, Weight(q) + w)
    ensures RoomFor(Alloc(a, q), w) && |Alloc(a, q).chunks| == 1 && Inside(a, q) && Place(a, q).chunk == 0
    ensures a.chunks != [] ==> Alloc(a, q).chunks[0].data == a.chunks[0].data
  {
    if a.chunks != [] {
      assert Bounded(a.chunks);
      assert [a.chunks[0]] == a.chunks;
      FitsMeaning(a.chunks[0], q.size, q.align);
    }
  }

  lemma {:induction false} RoomRun(a: Arena, qs: seq<Request>)
    requires Aligned(qs) && RoomFor(a, TotalWeight(qs))
    ensures |After(a, qs).chunks| <= 1
    ensures forall k :: 0 <= k < |qs| ==> Blocks(a, qs)[k].chunk == 0 && BlockInside(a, qs, k)
    decreases |qs|
  {
    if qs != [] {
      var a' := Alloc(a, qs[0]);
      RoomStep(a, qs[0], TotalWeight(qs[1..]));
      RoomRun(a', qs[1..]);
      FirstBlockInside(a, qs);
      assert Blocks(a, qs)[0] == Place(a, qs[0]);
      assert forall k :: 0 < k < |qs| ==>
               && Blocks(a, qs)[k] == Blocks(a', qs[1..])[k - 1]
               && (BlockInside(a, qs, k) <==> BlockInside(a', qs[1..], k - 1));
    }
  }

  /**
   * Requests whose sizes and worst paddings fit into the default size together leave a new arena with a
   * single chunk, and all their blocks lie inside it.
   */
  lemma OneChunkIsEnough(defaultSize: nat, qs: seq<Request>)
    requires Aligned(qs) && defaultSize < WORD && TotalWeight(qs) <= defaultSize
    ensures var a := Arena([], defaultSize);
            && |After(a, qs).chunks| <= 1
            && forall k :: 0 <= k < |qs| ==> Blocks(a, qs)[k].chunk == 0 && BlockInside(a, qs, k)
  {
    RoomRun(Arena([], defaultSize), qs);
  }

  // ---------------------------------------------------------------- the total size

  /** The total size grows exactly when a chunk is opened, and by the size of that chunk. */
  lemma TotalGrows(a: Arena, q: Request)
    requires 0 < q.align
    ensures var a' := Alloc(a, q);
            if |a'.chunks| == |a.chunks| then TotalSize(a'.chunks) == TotalSize(a.chunks)
            else TotalSize(a'.chunks) == TotalSize(a.chunks) + a'.chunks[|a.chunks|].size
  {
    var a', n := Alloc(a, q), |a.chunks|;
    if |a'.chunks| == n {
      SizeStays(a.chunks, a'.chunks);
    } else {
      assert a'.chunks[..n] == a.chunks;
    }
  }

  /** A chunk counts with its whole size, wherever it stands in the list. */
  lemma {:induction false} TotalCounts(chunks: seq<Chunk>, i: nat)
    requires i < |chunks|
    ensures TotalSize(chunks) == TotalSize(chunks[..i] + chunks[i + 1..]) + chunks[i].size
    decreases |chunks|
  {
    var n := |chunks| - 1;
    var rest := chunks[..i] + chunks[i + 1..];
    if i < n {
      TotalCounts(chunks[..n], i);
      assert rest[..n - 1] == chunks[..n][..i] + chunks[..n][i + 1..] && rest[n - 1] == chunks[n];
      assert chunks[..n][i] == chunks[i];
    } else {
      assert rest == chunks[..n];
    }
  }

  function SizesOf(qs: seq<Request>): nat {
    if qs == [] then 0 else qs[0].size + SizesOf(qs[1..])
  }

  lemma UsedStep(a: Arena, q: Request)
    requires 0 < q.align
    ensures UsedBytes(Alloc(a, q).chunks) >= UsedBytes(a.chunks) + q.size
  {
    var provided, b := Provided(a, q), Place(a, q);
    if |provided| > |a.chunks| { assert provided[..|a.chunks|] == a.chunks; }
    UsedMoves(provided, b.chunk, provided[b.chunk].(cursor := b.ptr + q.size));
  }

  lemma {:induction false} UsedWithin(chunks: seq<Chunk>)
    requires Bounded(chunks)
    ensures UsedBytes(chunks) <= TotalSize(chunks)
    decreases |chunks|
  {
    if chunks != [] { UsedWithin(chunks[..|chunks| - 1]); }
  }

  lemma {:induction false} RunUses(a: Arena, qs: seq<Request>)
    requires Sized(qs, a.defaultSize) && Bounded(a.chunks) && Guarded(a, qs)
    ensures Bounded(After(a, qs).chunks) && UsedBytes(After(a, qs).chunks) >= UsedBytes(a.chunks) + SizesOf(qs)
    decreases |qs|
  {
    if qs != [] {
      InsideExactlyWhen(a, qs[0]);
      UsedStep(a, qs[0]);
      RunUses(Alloc(a, qs[0]), qs[1..]);
    }
  }

  /** While the guard holds, the chunks of a run on a new arena have room for all its blocks. */
  lemma TotalCovers(defaultSize: nat, qs: seq<Request>)
    requires Sized(qs, defaultSize) && Guarded(Arena([], defaultSize), qs)
    ensures TotalSize(After(Arena([], defaultSize), qs).chunks) >= SizesOf(qs)
  {
    RunUses(Arena([], defaultSize), qs);
    UsedWithin(After(Arena([], defaultSize), qs).chunks);
  }
}
