/**
 * The space bound: a chunk is opened only when its first block fits in no earlier chunk, so without
 * a reset the arena never holds more than twice the weight of the requests and one default chunk.
 */
module ArenaSpace {
  import opened Arithmetic
  import opened Alignment
  import opened ArenaModel

  /** What a request costs at worst: its size and the padding it may need. */
  function Weight(q: Request): nat
    requires 0 < q.align
  {
    q.size + (q.align - 1)
  }

  function TotalWeight(qs: seq<Request>): nat
    requires Aligned(qs)
  {
    if qs == [] then 0 else Weight(qs[0]) + TotalWeight(qs[1..])
  }

  /** The bytes of the chunks that are in use, padding included. */
  function UsedBytes(chunks: seq<Chunk>): int {
    if chunks == [] then 0
    else UsedBytes(chunks[..|chunks| - 1]) + chunks[|chunks| - 1].cursor - chunks[|chunks| - 1].data
  }

  lemma {:induction false} UsedMoves(chunks: seq<Chunk>, i: nat, c: Chunk)
    requires i < |chunks|
    ensures UsedBytes(chunks[i := c]) ==
            UsedBytes(chunks) - (chunks[i].cursor - chunks[i].data) + (c.cursor - c.data)
    decreases |chunks|
  {
    var n := |chunks| - 1;
    if i < n {
      assert chunks[i := c][..n] == chunks[..n][i := c];
      UsedMoves(chunks[..n], i, c);
    } else {
      assert chunks[i := c][..n] == chunks[..n];
    }
  }

  lemma {:induction false} SizeStays(chunks: seq<Chunk>, chunks': seq<Chunk>)
    requires |chunks| == |chunks'| && forall i :: 0 <= i < |chunks| ==> chunks'[i].size == chunks[i].size
    ensures TotalSize(chunks') == TotalSize(chunks)
    decreases |chunks|
  {
    if chunks != [] { SizeStays(chunks[..|chunks| - 1], chunks'[..|chunks| - 1]); }
  }

  /** A chunk that fails the fit test is used up to less than the weight of the request. */
  lemma UnfitIsFull(c: Chunk, q: Request)
    requires 0 < q.align && c.data <= c.cursor && c.size < WORD && !Fits(c, q.size, q.align)
    ensures c.size < c.cursor - c.data + Weight(q)
  {
    var rest := c.size - (AlignForward(c.cursor, q.align) - c.data);
    if 0 <= rest { ModUnique(rest, WORD, 0, rest); }
  }

  /**
   * The accounting of a run with total weight `w` so far: `firsts` is the weight of the first blocks
   * of all chunks but the oldest, `last` that of the first block of the newest chunk.
   */
  ghost predicate Accounted(a: Arena, w: nat, firsts: nat, last: nat) {
    var n := |a.chunks| - 1;
    && a.defaultSize < WORD
    && (forall i :: 0 <= i <= n ==> a.chunks[i].data <= a.chunks[i].cursor && a.chunks[i].size < WORD)
    && UsedBytes(a.chunks) <= w
    && (n >= 0 ==>
          && firsts <= w
          && UsedBytes(a.chunks[..n]) + last <= w
          && TotalSize(a.chunks[..n]) <= UsedBytes(a.chunks[..n]) + firsts
          && a.chunks[n].size <= last + a.defaultSize)
  }

  lemma AccountedBound(a: Arena, w: nat, firsts: nat, last: nat)
    requires Accounted(a, w, firsts, last)
    ensures TotalSize(a.chunks) <= 2 * w + a.defaultSize
  {
  }

  /** Moving a cursor forward changes the use of the chunks by the move, and no size. */
  lemma MoveCursor(chunks: seq<Chunk>, i: nat, c: Chunk)
    requires i < |chunks| && c.data == chunks[i].data && c.size == chunks[i].size
    ensures UsedBytes(chunks[i := c]) == UsedBytes(chunks) + c.cursor - chunks[i].cursor
    ensures TotalSize(chunks[i := c]) == TotalSize(chunks)
  {
    UsedMoves(chunks, i, c);
    SizeStays(chunks, chunks[i := c]);
  }

  /** Room taken in an older chunk. */
  lemma AccountOlder(a: Arena, i: nat, c: Chunk, weight: nat, w: nat, firsts: nat, last: nat)
    requires Accounted(a, w, firsts, last) && i < |a.chunks| - 1
    requires c.data == a.chunks[i].data && c.size == a.chunks[i].size
    requires a.chunks[i].cursor <= c.cursor <= a.chunks[i].cursor + weight
    ensures Accounted(a.(chunks := a.chunks[i := c]), w + weight, firsts, last)
  {
    var n := |a.chunks| - 1;
    var chunks := a.chunks[i := c];
    assert chunks[..n] == a.chunks[..n][i := c] && chunks[n] == a.chunks[n];
    MoveCursor(a.chunks, i, c);
    MoveCursor(a.chunks[..n], i, c);
    assert UsedBytes(chunks) <= w + weight && UsedBytes(chunks[..n]) + last <= w + weight;
  }

  /** Room taken in the newest chunk. */
  lemma AccountNewest(a: Arena, c: Chunk, weight: nat, w: nat, firsts: nat, last: nat)
    requires Accounted(a, w, firsts, last) && a.chunks != []
    requires var was := a.chunks[|a.chunks| - 1];
             c.data == was.data && c.size == was.size && was.cursor <= c.cursor <= was.cursor + weight
    ensures Accounted(a.(chunks := a.chunks[|a.chunks| - 1 := c]), w + weight, firsts, last)
  {
    var n := |a.chunks| - 1;
    assert a.chunks[n := c][..n] == a.chunks[..n];
    MoveCursor(a.chunks, n, c);
  }

  /** A block in an existing chunk. */
  lemma AccountUsed(a: Arena, q: Request, w: nat, firsts: nat, last: nat)
    requires 0 < q.align && Accounted(a, w, firsts, last) && Find(a.chunks, q.size, q.align) < |a.chunks|
    ensures Accounted(Alloc(a, q), w + Weight(q), firsts, last)
  {
    var i := Find(a.chunks, q.size, q.align);
    var c := Alloc(a, q).chunks[i];
    if i < |a.chunks| - 1 {
      AccountOlder(a, i, c, Weight(q), w, firsts, last);
    } else {
      AccountNewest(a, c, Weight(q), w, firsts, last);
    }
  }

  /** A block that opens a chunk. */
  lemma AccountOpened(a: Arena, q: Request, w: nat, firsts: nat, last: nat)
    requires 0 < q.align && Weight(q) < WORD && Accounted(a, w, firsts, last)
    requires Find(a.chunks, q.size, q.align) == |a.chunks|
    ensures Accounted(Alloc(a, q), w + Weight(q), if a.chunks == [] then 0 else firsts + Weight(q), Weight(q))
  {
    var n := |a.chunks|;
    var a' := Alloc(a, q);
    assert a'.chunks[..n] == a.chunks;
    if n > 0 { UnfitIsFull(a.chunks[n - 1], q); }
  }

  lemma {:induction false} AccountRun(a: Arena, qs: seq<Request>, w: nat, firsts: nat, last: nat)
    requires Sized(qs, a.defaultSize) && Accounted(a, w, firsts, last)
    ensures TotalSize(After(a, qs).chunks) <= 2 * (w + TotalWeight(qs)) + a.defaultSize
    decreases |qs|
  {
    if qs == [] {
      AccountedBound(a, w, firsts, last);
    } else {
      var q, w' := qs[0], w + Weight(qs[0]);
      if Find(a.chunks, q.size, q.align) < |a.chunks| {
        AccountUsed(a, q, w, firsts, last);
        AccountRun(Alloc(a, q), qs[1..], w', firsts, last);
      } else {
        AccountOpened(a, q, w, firsts, last);
        AccountRun(Alloc(a, q), qs[1..], w', if a.chunks == [] then 0 else firsts + Weight(q), Weight(q));
      }
    }
  }

  /** The space bound, for every run of requests on a new arena. */
  lemma SpaceBound(defaultSize: nat, qs: seq<Request>)
    requires Sized(qs, defaultSize)
    ensures TotalSize(After(Arena([], defaultSize), qs).chunks) <= 2 * TotalWeight(qs) + defaultSize
  {
    AccountRun(Arena([], defaultSize), qs, 0, 0, 0);
  }
}
