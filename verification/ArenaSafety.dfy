/**
 * What the blocks of a run are worth. Within a chunk they never overlap. A block lies inside its
 * chunk exactly when the chunk was not chosen by the wrapped subtraction, and it is aligned exactly
 * when the cursor was aligned or half-way.
 */
module ArenaSafety {
  import opened Arithmetic
  import opened Alignment
  import opened ArenaModel

  // ---------------------------------------------------------------- inside the chunk

  /** The request fits between the aligned cursor and the end. */
  predicate HasRoom(c: Chunk, size: nat, align: nat)
    requires 0 < align
  {
    AlignForward(c.cursor, align) + size <= End(c)
  }

  /** Aligning the cursor takes it past the end, which makes the unsigned subtraction wrap. */
  predicate Overshoots(c: Chunk, align: nat)
    requires 0 < align
  {
    AlignForward(c.cursor, align) > End(c)
  }

  ghost predicate Bounded(chunks: seq<Chunk>) {
    forall i :: 0 <= i < |chunks| ==> chunks[i].data <= chunks[i].cursor <= End(chunks[i]) && chunks[i].size < WORD
  }

  /** A chunk within bounds passes the fit test when the request has room, and also when aligning overshoots. */
  lemma FitsMeaning(c: Chunk, size: nat, align: nat)
    requires 0 < align && Bounded([c]) && size + (align - 1) < WORD
    ensures Fits(c, size, align) <==> HasRoom(c, size, align) || Overshoots(c, align)
  {
    assert [c][0] == c;
    var rest := c.size - (AlignForward(c.cursor, align) - c.data);
    if rest < 0 {
      ModUnique(rest, WORD, -1, rest + WORD);
    } else {
      ModUnique(rest, WORD, 0, rest);
    }
  }

  /** What a caller can check: no chunk overshoots before the first one with room. */
  ghost predicate Guard(a: Arena, q: Request)
    requires 0 < q.align
  {
    forall i :: 0 <= i < |a.chunks| && Overshoots(a.chunks[i], q.align) ==>
      exists j :: 0 <= j < i && HasRoom(a.chunks[j], q.size, q.align)
  }

  /** The block lies within its chunk. */
  ghost predicate Inside(a: Arena, q: Request)
    requires 0 < q.align
  {
    var b, chunks := Place(a, q), Provided(a, q);
    chunks[b.chunk].data <= b.ptr && b.ptr + b.size <= End(chunks[b.chunk])
  }

  /** The guard says that the chunk the fit test finds, if any, has room. */
  lemma GuardMeaning(a: Arena, q: Request)
    requires 0 < q.align && q.size + (q.align - 1) < WORD && Bounded(a.chunks)
    ensures var n := Find(a.chunks, q.size, q.align);
            Guard(a, q) <==> (n < |a.chunks| ==> HasRoom(a.chunks[n], q.size, q.align))
  {
    forall i | 0 <= i < |a.chunks|
      ensures Fits(a.chunks[i], q.size, q.align) <==>
              HasRoom(a.chunks[i], q.size, q.align) || Overshoots(a.chunks[i], q.align)
    {
      FitsMeaning(a.chunks[i], q.size, q.align);
    }
  }

  lemma InsideMeaning(a: Arena, q: Request)
    requires 0 < q.align && q.size + (q.align - 1) < WORD && a.defaultSize < WORD && Bounded(a.chunks)
    ensures var n := Find(a.chunks, q.size, q.align);
            Inside(a, q) <==> (n < |a.chunks| ==> HasRoom(a.chunks[n], q.size, q.align))
  {
    var n := Find(a.chunks, q.size, q.align);
    if n == |a.chunks| { NewChunkFits(q, a.defaultSize, Provided(a, q)[n]); }
  }

  lemma BoundedStep(a: Arena, q: Request)
    requires 0 < q.align && q.size + (q.align - 1) < WORD && a.defaultSize < WORD && Bounded(a.chunks) && Inside(a, q)
    ensures Bounded(Alloc(a, q).chunks)
  {
  }

  /** In an arena within bounds, a block lies inside its chunk if and only if the guard holds. */
  lemma InsideExactlyWhen(a: Arena, q: Request)
    requires 0 < q.align && q.size + (q.align - 1) < WORD && a.defaultSize < WORD && Bounded(a.chunks)
    ensures Inside(a, q) <==> Guard(a, q)
    ensures Inside(a, q) ==> Bounded(Alloc(a, q).chunks)
  {
    GuardMeaning(a, q);
    InsideMeaning(a, q);
    if Inside(a, q) { BoundedStep(a, q); }
  }

  /** The guard holds at every step of the run. */
  ghost predicate Guarded(a: Arena, qs: seq<Request>)
    requires Aligned(qs)
    decreases |qs|
  {
    qs == [] || (Guard(a, qs[0]) && Guarded(Alloc(a, qs[0]), qs[1..]))
  }

  /** Block `k` of the run lies inside its chunk. */
  ghost predicate BlockInside(a: Arena, qs: seq<Request>, k: nat)
    requires Aligned(qs) && k < |qs|
  {
    var b, chunks := Blocks(a, qs)[k], After(a, qs).chunks;
    b.chunk < |chunks| && chunks[b.chunk].data <= b.ptr && b.ptr + b.size <= End(chunks[b.chunk])
  }

  lemma FirstBlockInside(a: Arena, qs: seq<Request>)
    requires Aligned(qs) && qs != []
    ensures BlockInside(a, qs, 0) <==> Inside(a, qs[0])
  {
    ChunksPersist(Alloc(a, qs[0]), qs[1..]);
  }

  /** Every block of a run lies inside its chunk if and only if the guard holds at every step. */
  lemma {:induction false} InsideThroughout(a: Arena, qs: seq<Request>)
    requires Sized(qs, a.defaultSize) && Bounded(a.chunks)
    ensures (forall k :: 0 <= k < |qs| ==> BlockInside(a, qs, k)) <==> Guarded(a, qs)
    decreases |qs|
  {
    if qs != [] {
      var a' := Alloc(a, qs[0]);
      FirstBlockInside(a, qs);
      InsideExactlyWhen(a, qs[0]);
      if Inside(a, qs[0]) {
        InsideThroughout(a', qs[1..]);
        assert forall k :: 0 < k < |qs| ==> (BlockInside(a, qs, k) <==> BlockInside(a', qs[1..], k - 1));
        assert forall k :: 0 <= k < |qs| - 1 ==> (BlockInside(a', qs[1..], k) <==> BlockInside(a, qs, k + 1));
      } else {
        assert !BlockInside(a, qs, 0);
      }
    }
  }

  // ---------------------------------------------------------------- disjointness

  lemma BlocksTail(a: Arena, qs: seq<Request>, k: nat)
    requires Aligned(qs) && 0 < k < |qs|
    ensures Blocks(a, qs)[k] == Blocks(Alloc(a, qs[0]), qs[1..])[k - 1]
  {
  }

  /** A later block in a chunk starts at or behind the cursor the chunk has now. */
  lemma {:induction false} BehindCursor(a: Arena, qs: seq<Request>, k: nat)
    requires Aligned(qs) && k < |qs|
    ensures var b := Blocks(a, qs)[k]; b.chunk < |a.chunks| ==> a.chunks[b.chunk].cursor <= b.ptr
    decreases |qs|
  {
    if k > 0 {
      BlocksTail(a, qs, k);
      BehindCursor(Alloc(a, qs[0]), qs[1..], k - 1);
    }
  }

  /** Two blocks of one chunk do not overlap, in any run whatsoever. */
  lemma {:induction false} SameChunkDisjoint(a: Arena, qs: seq<Request>, i: nat, k: nat)
    requires Aligned(qs) && i < k < |qs|
    ensures var bs := Blocks(a, qs); bs[i].chunk == bs[k].chunk ==> bs[i].ptr + bs[i].size <= bs[k].ptr
    decreases |qs|
  {
    BlocksTail(a, qs, k);
    if i > 0 {
      BlocksTail(a, qs, i);
      SameChunkDisjoint(Alloc(a, qs[0]), qs[1..], i - 1, k - 1);
    } else {
      assert Blocks(a, qs)[0] == Place(a, qs[0]);
      BehindCursor(Alloc(a, qs[0]), qs[1..], k - 1);
    }
  }

  /** The inner allocator gave the chunks regions that do not overlap. */
  ghost predicate ChunksApart(chunks: seq<Chunk>) {
    forall i, j :: 0 <= i < |chunks| && 0 <= j < |chunks| && i != j ==>
      End(chunks[i]) <= chunks[j].data || End(chunks[j]) <= chunks[i].data
  }

  /** All blocks handed out by a guarded run, from a reset on, are pairwise disjoint. */
  lemma BlocksDisjoint(a: Arena, qs: seq<Request>, i: nat, k: nat)
    requires Sized(qs, a.defaultSize) && Bounded(a.chunks) && Guarded(a, qs) && i < k < |qs|
    requires ChunksApart(After(a, qs).chunks)
    ensures var b, c := Blocks(a, qs)[i], Blocks(a, qs)[k];
            b.ptr + b.size <= c.ptr || c.ptr + c.size <= b.ptr
  {
    InsideThroughout(a, qs);
    assert BlockInside(a, qs, i) && BlockInside(a, qs, k);
    SameChunkDisjoint(a, qs, i, k);
  }

  // ---------------------------------------------------------------- alignment

  /** A block is aligned exactly when its chunk's cursor was aligned or half an alignment off. */
  lemma AlignedExactlyWhen(a: Arena, q: Request)
    requires 0 < q.align
    ensures var b := Place(a, q);
            var cursor := Provided(a, q)[b.chunk].cursor;
            Divides(q.align, b.ptr) <==> cursor % q.align == 0 || 2 * (cursor % q.align) == q.align
  {
    AlignForwardMeaning(Provided(a, q)[Place(a, q).chunk].cursor, q.align);
  }

  /** What a caller can check: the cursor of the chunk the request goes to. */
  ghost predicate CursorGuard(a: Arena, q: Request)
    requires 0 < q.align
  {
    var r := Provided(a, q)[Find(a.chunks, q.size, q.align)].cursor % q.align;
    r == 0 || 2 * r == q.align
  }

  ghost predicate CursorGuarded(a: Arena, qs: seq<Request>)
    requires Aligned(qs)
    decreases |qs|
  {
    qs == [] || (CursorGuard(a, qs[0]) && CursorGuarded(Alloc(a, qs[0]), qs[1..]))
  }

  /** Every block of a run is aligned as asked if and only if the cursor guard holds at every step. */
  lemma {:induction false} AlignedThroughout(a: Arena, qs: seq<Request>)
    requires Aligned(qs)
    ensures (forall k :: 0 <= k < |qs| ==> Divides(qs[k].align, Blocks(a, qs)[k].ptr)) <==> CursorGuarded(a, qs)
    decreases |qs|
  {
    if qs != [] {
      var bs, bs' := Blocks(a, qs), Blocks(Alloc(a, qs[0]), qs[1..]);
      AlignedExactlyWhen(a, qs[0]);
      AlignedThroughout(Alloc(a, qs[0]), qs[1..]);
      assert forall k :: 0 < k < |qs| ==> qs[k] == qs[1..][k - 1] && bs[k] == bs'[k - 1];
      assert forall k :: 0 <= k < |qs| - 1 ==> qs[1..][k] == qs[k + 1] && bs'[k] == bs[k + 1];
      assert Place(a, qs[0]) == bs[0];
    }
  }

  /**
   * All sizes are multiples of a unit that every alignment divides, and the inner allocator
   * answers with multiples of the unit.
   */
  ghost predicate Uniform(qs: seq<Request>, unit: nat)
    requires 0 < unit && Aligned(qs)
  {
    forall i :: 0 <= i < |qs| ==>
      Divides(qs[i].align, unit) && Divides(unit, qs[i].size) && Divides(unit, qs[i].base)
  }

  ghost predicate OnUnits(chunks: seq<Chunk>, unit: nat)
    requires 0 < unit
  {
    forall i :: 0 <= i < |chunks| ==> Divides(unit, chunks[i].cursor)
  }

  lemma OnUnit(cursor: nat, align: nat, unit: nat)
    requires 0 < align && 0 < unit && Divides(align, unit) && Divides(unit, cursor)
    ensures AlignForward(cursor, align) == cursor && Divides(align, cursor)
  {
    DividesThrough(align, unit, cursor);
  }

  lemma UniformStep(a: Arena, q: Request, unit: nat)
    requires 0 < unit && 0 < q.align && Bounded(a.chunks) && OnUnits(a.chunks, unit)
    requires Divides(q.align, unit) && Divides(unit, q.size) && Divides(unit, q.base)
    ensures Guard(a, q) && Divides(q.align, Place(a, q).ptr) && OnUnits(Alloc(a, q).chunks, unit)
  {
    forall i | 0 <= i < |a.chunks| ensures !Overshoots(a.chunks[i], q.align) {
      OnUnit(a.chunks[i].cursor, q.align, unit);
    }
    var b := Place(a, q);
    OnUnit(Provided(a, q)[b.chunk].cursor, q.align, unit);
    DividesSum(unit, b.ptr, q.size);
  }

  /** Runs of uniform requests satisfy the guard throughout, and every block is aligned as asked. */
  lemma {:induction false} UniformIsSafe(a: Arena, qs: seq<Request>, unit: nat)
    requires 0 < unit && Sized(qs, a.defaultSize) && Uniform(qs, unit)
    requires Bounded(a.chunks) && OnUnits(a.chunks, unit)
    ensures Guarded(a, qs)
    ensures forall k :: 0 <= k < |qs| ==> Divides(qs[k].align, Blocks(a, qs)[k].ptr)
    decreases |qs|
  {
    if qs != [] {
      UniformStep(a, qs[0], unit);
      InsideExactlyWhen(a, qs[0]);
      UniformIsSafe(Alloc(a, qs[0]), qs[1..], unit);
      assert forall k :: 0 < k < |qs| ==>
               qs[k] == qs[1..][k - 1] && Blocks(a, qs)[k] == Blocks(Alloc(a, qs[0]), qs[1..])[k - 1];
    }
  }

  /**
   * Two requests on a new arena: the first fills its chunk of fifteen bytes, and the second is placed past
   * the end of it, misaligned.
   */
  lemma OvershootHappens()
    ensures var a, qs := Arena([], 15), [Request(15, 1, 64), Request(1, 8, 128)];
            && Sized(qs, 15)
            && Blocks(a, qs) == [Block(0, 64, 15), Block(0, 86, 1)]
            && After(a, qs).chunks[0].data == 64 && After(a, qs).chunks[0].size == 15
            && !BlockInside(a, qs, 1) && !Divides(8, Blocks(a, qs)[1].ptr)
  {
    var a, qs := Arena([], 15), [Request(15, 1, 64), Request(1, 8, 128)];
    var b := Alloc(a, qs[0]);
    assert b.chunks == [Chunk(64, 15, 79)];
    FitsMeaning(b.chunks[0], 1, 8);
    assert AlignForward(79, 8) == 86;
    assert Find(b.chunks, 1, 8) == 0;
    assert qs[1..] == [qs[1]] && qs[1..][1..] == [];
    assert Blocks(b, qs[1..]) == [Place(b, qs[1])] + Blocks(Alloc(b, qs[1]), []);
    ChunksPersist(b, qs[1..]);
  }
}
