/**
 * The arena of lib/core/arena.h as a value: chunks in list order, first-fit with per-request
 * alignment, reset. The fit test keeps the source's unsigned 64-bit subtraction.
 */
module ArenaModel {
  import opened Alignment

  const WORD: nat := 0x1_0000_0000_0000_0000

  /** `data` is the address of the first data byte, `cursor` that of the next free one. */
  datatype Chunk = Chunk(data: nat, size: nat, cursor: nat)

  function End(c: Chunk): nat { c.data + c.size }

  function RestCapAligned(c: Chunk, align: nat): nat
    requires 0 < align
  {
    (c.size - (AlignForward(c.cursor, align) - c.data)) % WORD
  }

  predicate Fits(c: Chunk, size: nat, align: nat)
    requires 0 < align
  {
    RestCapAligned(c, align) >= size
  }

  /** The first chunk that passes the fit test, or the number of chunks. */
  function Find(chunks: seq<Chunk>, size: nat, align: nat): (i: nat)
    requires 0 < align
    ensures i <= |chunks|
    ensures i < |chunks| ==> Fits(chunks[i], size, align)
    ensures forall j :: 0 <= j < i ==> !Fits(chunks[j], size, align)
  {
    if chunks == [] || Fits(chunks[0], size, align) then 0
    else
      var i := Find(chunks[1..], size, align);
      assert forall j :: 0 < j < i + 1 ==> chunks[j] == chunks[1..][j - 1];
      i + 1
  }

  function NewSize(size: nat, align: nat, defaultSize: nat): nat
    requires 0 < align
  {
    if size + (align - 1) > defaultSize then size + (align - 1) else defaultSize
  }

  /** A request, with the address the inner allocator would give a new chunk's data. */
  datatype Request = Request(size: nat, align: nat, base: nat)

  /** A block handed out: its chunk's position, its address and its size. */
  datatype Block = Block(chunk: nat, ptr: nat, size: nat)

  datatype Arena = Arena(chunks: seq<Chunk>, defaultSize: nat)

  /** The chunks once a chunk for the request exists at the position found. */
  function Provided(a: Arena, q: Request): (chunks: seq<Chunk>)
    requires 0 < q.align
    ensures |a.chunks| <= |chunks| && Find(a.chunks, q.size, q.align) < |chunks|
    ensures forall j :: 0 <= j < |a.chunks| ==> chunks[j] == a.chunks[j]
  {
    if Find(a.chunks, q.size, q.align) < |a.chunks| then a.chunks
    else a.chunks + [Chunk(q.base, NewSize(q.size, q.align, a.defaultSize), q.base)]
  }

  function Place(a: Arena, q: Request): Block
    requires 0 < q.align
  {
    var i := Find(a.chunks, q.size, q.align);
    Block(i, AlignForward(Provided(a, q)[i].cursor, q.align), q.size)
  }

  function Alloc(a: Arena, q: Request): Arena
    requires 0 < q.align
  {
    var b := Place(a, q);
    var chunks := Provided(a, q);
    a.(chunks := chunks[b.chunk := chunks[b.chunk].(cursor := b.ptr + q.size)])
  }

  function Rested(chunks: seq<Chunk>): (r: seq<Chunk>)
    ensures |r| == |chunks| && forall i :: 0 <= i < |chunks| ==> r[i] == chunks[i].(cursor := chunks[i].data)
  {
    seq(|chunks|, i requires 0 <= i < |chunks| => chunks[i].(cursor := chunks[i].data))
  }

  function Reset(a: Arena): Arena { a.(chunks := Rested(a.chunks)) }

  function TotalSize(chunks: seq<Chunk>): nat {
    if chunks == [] then 0 else TotalSize(chunks[..|chunks| - 1]) + chunks[|chunks| - 1].size
  }

  // ---------------------------------------------------------------- runs without a reset

  predicate Aligned(qs: seq<Request>) {
    forall i :: 0 <= i < |qs| ==> 0 < qs[i].align
  }

  function After(a: Arena, qs: seq<Request>): Arena
    requires Aligned(qs)
    decreases |qs|
  {
    if qs == [] then a else After(Alloc(a, qs[0]), qs[1..])
  }

  function Blocks(a: Arena, qs: seq<Request>): (bs: seq<Block>)
    requires Aligned(qs)
    ensures |bs| == |qs|
    decreases |qs|
  {
    if qs == [] then [] else [Place(a, qs[0])] + Blocks(Alloc(a, qs[0]), qs[1..])
  }

  /** Chunks stay where they are: a run only moves cursors and appends chunks. */
  lemma {:induction false} ChunksPersist(a: Arena, qs: seq<Request>)
    requires Aligned(qs)
    ensures After(a, qs).defaultSize == a.defaultSize && |a.chunks| <= |After(a, qs).chunks|
    ensures forall i :: 0 <= i < |a.chunks| ==> After(a, qs).chunks[i].data == a.chunks[i].data &&
                                                After(a, qs).chunks[i].size == a.chunks[i].size
    decreases |qs|
  {
    if qs != [] { ChunksPersist(Alloc(a, qs[0]), qs[1..]); }
  }

  // ---------------------------------------------------------------- replay after a reset

  /** Sizes are 64-bit values and so is the size of every chunk created for a request. */
  ghost predicate Sized(qs: seq<Request>, defaultSize: nat) {
    defaultSize < WORD && forall i :: 0 <= i < |qs| ==> 0 < qs[i].align && qs[i].size + (qs[i].align - 1) < WORD
  }

  /** The same sizes and alignments; the inner allocator may answer differently. */
  ghost predicate SameRequests(qs: seq<Request>, qs': seq<Request>) {
    |qs| == |qs'| && forall i :: 0 <= i < |qs| ==> qs'[i].size == qs[i].size && qs'[i].align == qs[i].align
  }

  /** A chunk made for a request passes its fit test while it is unused. */
  lemma NewChunkFits(q: Request, defaultSize: nat, c: Chunk)
    requires 0 < q.align && q.size + (q.align - 1) < WORD && defaultSize < WORD
    requires c.cursor == c.data && c.size == NewSize(q.size, q.align, defaultSize)
    ensures Fits(c, q.size, q.align)
    ensures AlignForward(c.cursor, q.align) + q.size <= End(c)
  {
  }

  lemma {:induction false} FindPrefix(chunks: seq<Chunk>, more: seq<Chunk>, size: nat, align: nat)
    requires 0 < align
    ensures Find(chunks, size, align) < |chunks| ==> Find(chunks + more, size, align) == Find(chunks, size, align)
    ensures Find(chunks, size, align) == |chunks| && more != [] && Fits(more[0], size, align) ==>
              Find(chunks + more, size, align) == |chunks|
  {
    var i, j := Find(chunks, size, align), Find(chunks + more, size, align);
    assert forall k :: 0 <= k < |chunks| ==> (chunks + more)[k] == chunks[k];
    assert more != [] ==> (chunks + more)[|chunks|] == more[0];
  }

  /** A request finds the same chunk, whether that has to be created or is there already, unused. */
  lemma ReplayProvided(a: Arena, b: Arena, q: Request, q': Request, rest: seq<Chunk>)
    requires 0 < q.align && Sized([q], a.defaultSize)
    requires q'.size == q.size && q'.align == q.align && b.defaultSize == a.defaultSize
    requires b.chunks == a.chunks + Rested(Alloc(a, q).chunks[|a.chunks|..]) + rest
    ensures Find(b.chunks, q.size, q.align) == Find(a.chunks, q.size, q.align) < |b.chunks|
    ensures b.chunks == Provided(a, q) + rest
  {
    assert q == [q][0];
    var i := Find(a.chunks, q.size, q.align);
    var more := Rested(Alloc(a, q).chunks[|a.chunks|..]) + rest;
    assert b.chunks == a.chunks + more;
    if i == |a.chunks| {
      var c := Chunk(q.base, NewSize(q.size, q.align, a.defaultSize), q.base);
      assert more[0] == c;
      NewChunkFits(q, a.defaultSize, c);
    }
    FindPrefix(a.chunks, more, q.size, q.align);
  }

  /** One step of the replay, on an arena that already has the unused chunks the run is going to create. */
  lemma ReplayStep(a: Arena, b: Arena, q: Request, q': Request, rest: seq<Chunk>)
    requires 0 < q.align && Sized([q], a.defaultSize)
    requires q'.size == q.size && q'.align == q.align && b.defaultSize == a.defaultSize
    requires b.chunks == a.chunks + Rested(Alloc(a, q).chunks[|a.chunks|..]) + rest
    ensures Place(b, q') == Place(a, q)
    ensures Alloc(b, q') == Alloc(a, q).(chunks := Alloc(a, q).chunks + rest)
  {
    ReplayProvided(a, b, q, q', rest);
    assert Provided(b, q') == Provided(a, q) + rest;
  }

  /** The unused form of the chunks a run appends: those of its first step, then those of the others. */
  lemma RestedSplit(a: Arena, qs: seq<Request>)
    requires Aligned(qs) && qs != []
    ensures var a', last := Alloc(a, qs[0]), After(a, qs).chunks;
            && |a.chunks| <= |a'.chunks| <= |last|
            && Rested(last[|a.chunks|..]) == Rested(a'.chunks[|a.chunks|..]) + Rested(last[|a'.chunks|..])
  {
    var a', last := Alloc(a, qs[0]), After(a, qs).chunks;
    ChunksPersist(a', qs[1..]);
    var m, n := |a.chunks|, |a'.chunks|;
    var left, right := Rested(last[m..]), Rested(a'.chunks[m..]) + Rested(last[n..]);
    assert |left| == |right|;
    forall i | 0 <= i < |left| ensures left[i] == right[i] {
      assert last[m..][i] == last[m + i];
      if m + i < n {
        assert a'.chunks[m..][i] == a'.chunks[m + i];
      } else {
        assert last[n..][m + i - n] == last[m + i];
      }
    }
  }

  /** One step of the replay, in terms of the chunks `last` that the run ends with. */
  lemma ReplayRest(a: Arena, b: Arena, q: Request, q': Request, last: seq<Chunk>)
    requires 0 < q.align && Sized([q], a.defaultSize)
    requires q'.size == q.size && q'.align == q.align && b.defaultSize == a.defaultSize
    requires |a.chunks| <= |Alloc(a, q).chunks| <= |last| && b.chunks == a.chunks + Rested(last[|a.chunks|..])
    requires Rested(last[|a.chunks|..]) ==
             Rested(Alloc(a, q).chunks[|a.chunks|..]) + Rested(last[|Alloc(a, q).chunks|..])
    ensures Place(b, q') == Place(a, q)
    ensures Alloc(b, q') == Alloc(a, q).(chunks := Alloc(a, q).chunks + Rested(last[|Alloc(a, q).chunks|..]))
  {
    var added, rest := Rested(Alloc(a, q).chunks[|a.chunks|..]), Rested(last[|Alloc(a, q).chunks|..]);
    assert a.chunks + (added + rest) == a.chunks + added + rest;
    ReplayStep(a, b, q, q', rest);
  }

  lemma RestOfRequests(qs: seq<Request>, qs': seq<Request>, defaultSize: nat)
    requires Sized(qs, defaultSize) && SameRequests(qs, qs') && qs != []
    ensures Sized(qs[1..], defaultSize) && SameRequests(qs[1..], qs'[1..])
  {
    assert forall i :: 0 <= i < |qs| - 1 ==> qs[1..][i] == qs[i + 1] && qs'[1..][i] == qs'[i + 1];
  }

  lemma {:induction false} ReplayFrom(a: Arena, b: Arena, qs: seq<Request>, qs': seq<Request>)
    requires Sized(qs, a.defaultSize) && SameRequests(qs, qs') && b.defaultSize == a.defaultSize
    requires |a.chunks| <= |After(a, qs).chunks| && b.chunks == a.chunks + Rested(After(a, qs).chunks[|a.chunks|..])
    ensures After(b, qs') == After(a, qs) && Blocks(b, qs') == Blocks(a, qs)
    decreases |qs|
  {
    if qs == [] {
      assert b == a;
    } else {
      RestedSplit(a, qs);
      assert Sized([qs[0]], a.defaultSize);
      ReplayRest(a, b, qs[0], qs'[0], After(a, qs).chunks);
      RestOfRequests(qs, qs', a.defaultSize);
      ReplayFrom(Alloc(a, qs[0]), Alloc(b, qs'[0]), qs[1..], qs'[1..]);
    }
  }

  /**
   * After any requests on a reset arena and another reset, the same requests get the same
   * addresses, create no chunk and leave the same arena, whatever the inner allocator would answer.
   */
  lemma ReplayAfterReset(a: Arena, qs: seq<Request>, qs': seq<Request>)
    requires Sized(qs, a.defaultSize) && SameRequests(qs, qs')
    ensures var first := After(Reset(a), qs);
            && Blocks(Reset(first), qs') == Blocks(Reset(a), qs)
            && After(Reset(first), qs') == first
            && |After(Reset(first), qs').chunks| == |Reset(first).chunks|
  {
    var a0 := Reset(a);
    ChunksPersist(a0, qs);
    var last := After(a0, qs).chunks;
    assert Rested(last) == a0.chunks + Rested(last[|a0.chunks|..]);
    ReplayFrom(a0, Reset(After(a0, qs)), qs, qs');
  }
}
