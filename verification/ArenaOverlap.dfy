/**
 * For which alignments the blocks of every run stay inside their chunks, and apart from each other:
 * exactly if all requests ask for the same one. With two different ones a full chunk can be chosen
 * again, and the block placed past its end can overlap a live block of the next chunk.
 */
module ArenaOverlap {
  import opened Arithmetic
  import opened Alignment
  import opened ArenaModel
  import opened ArenaSafety
  import opened ArenaAlignment

  ghost predicate AllInside(a: Arena, qs: seq<Request>)
    requires Aligned(qs)
  {
    forall k :: 0 <= k < |qs| ==> BlockInside(a, qs, k)
  }

  predicate Apart(b: Block, c: Block) {
    b.ptr + b.size <= c.ptr || c.ptr + c.size <= b.ptr
  }

  ghost predicate AllApart(a: Arena, qs: seq<Request>)
    requires Aligned(qs)
  {
    forall i, k :: 0 <= i < k < |qs| ==> Apart(Blocks(a, qs)[i], Blocks(a, qs)[k])
  }

  /** All blocks of all runs on a new arena, with alignments from `lo` to `hi`, lie inside their chunks. */
  ghost predicate AlwaysInside(lo: nat, hi: nat, defaultSize: nat) {
    forall qs: seq<Request> :: Sized(qs, defaultSize) && Ranged(qs, lo, hi) ==>
      AllInside(Arena([], defaultSize), qs)
  }

  /** All blocks of all such runs, on an inner allocator that keeps the chunks apart, are pairwise disjoint. */
  ghost predicate AlwaysApart(lo: nat, hi: nat, defaultSize: nat) {
    forall qs: seq<Request> ::
      Sized(qs, defaultSize) && Ranged(qs, lo, hi) && ChunksApart(After(Arena([], defaultSize), qs).chunks) ==>
        AllApart(Arena([], defaultSize), qs)
  }

  // ---------------------------------------------------------------- one alignment

  lemma SameIsGuarded(qs: seq<Request>, align: nat, defaultSize: nat)
    requires PowerOfTwo(align) && Sized(qs, defaultSize) && Ranged(qs, align, align)
    ensures Guarded(Arena([], defaultSize), qs)
  {
    Multiple(align, 1);
    UniformIsSafe(Arena([], defaultSize), qs, align);
  }

  lemma SameIsInside(align: nat, defaultSize: nat)
    requires PowerOfTwo(align)
    ensures AlwaysInside(align, align, defaultSize)
  {
    var a := Arena([], defaultSize);
    forall qs: seq<Request> | Sized(qs, defaultSize) && Ranged(qs, align, align) ensures AllInside(a, qs) {
      SameIsGuarded(qs, align, defaultSize);
      InsideThroughout(a, qs);
    }
  }

  lemma SameIsApart(align: nat, defaultSize: nat)
    requires PowerOfTwo(align)
    ensures AlwaysApart(align, align, defaultSize)
  {
    var a := Arena([], defaultSize);
    forall qs: seq<Request>, i, k |
      Sized(qs, defaultSize) && Ranged(qs, align, align) && ChunksApart(After(a, qs).chunks) && 0 <= i < k < |qs|
      ensures Apart(Blocks(a, qs)[i], Blocks(a, qs)[k])
    {
      SameIsGuarded(qs, align, defaultSize);
      BlocksDisjoint(a, qs, i, k);
    }
  }

  // ---------------------------------------------------------------- two alignments

  lemma NextMultiple(x: nat, d: nat) returns (m: nat)
    requires 0 < d
    ensures x < m <= x + d && Divides(d, m)
  {
    RemainderCongruent(x, d);
    Multiple(d, 1);
    m := x - x % d + d;
    DividesSum(d, x - x % d, d);
  }

  /** A size that fills a chunk of its own, and ends `lo` past a multiple of `hi`. */
  lemma FillingSize(lo: nat, hi: nat, defaultSize: nat) returns (size: nat)
    requires PowerOfTwo(lo) && PowerOfTwo(hi) && lo < hi
    ensures defaultSize < size <= defaultSize + hi + lo && lo <= size
    ensures Divides(lo, hi) && Divides(lo, size) && Divides(hi, size - lo) && 2 * lo <= hi
  {
    var m := NextMultiple(defaultSize, hi);
    size := lo + m;
    PowersApart(lo, hi);
    PowersDivide(lo, hi);
    DividesThrough(lo, hi, m);
    Multiple(lo, 1);
    DividesSum(lo, lo, m);
  }

  /** The cursor behind such a size moves by `lo` when it is aligned to `hi`. */
  lemma FullCursor(size: nat, lo: nat, hi: nat)
    requires 0 < lo < hi && Divides(hi, size - lo)
    ensures AlignForward(hi + size, hi) == hi + size + lo
  {
    Multiple(hi, 1);
    DividesSum(hi, hi, size - lo);
    CongruentRemainder(hi + size, lo, hi);
    ModUnique(lo, hi, 0, lo);
  }

  /** The chunk that the first request fills: nothing fits for alignment `lo`, and everything seems to for `hi`. */
  function Full(size: nat, lo: nat, hi: nat): Chunk
    requires 0 < lo
  {
    Chunk(hi, size + (lo - 1), hi + size)
  }

  lemma FullFits(size: nat, lo: nat, hi: nat)
    requires 0 < lo < hi && hi + (hi - 1) < WORD && size + lo < WORD
    requires Divides(lo, hi) && Divides(lo, size) && Divides(hi, size - lo)
    ensures !Fits(Full(size, lo, hi), hi, lo) && Fits(Full(size, lo, hi), hi, hi)
  {
    var c := Full(size, lo, hi);
    assert Bounded([c]);
    DividesSum(lo, hi, size);
    assert AlignForward(hi + size, lo) == hi + size;
    FullCursor(size, lo, hi);
    FitsMeaning(c, hi, lo);
    FitsMeaning(c, hi, hi);
  }

  /**
   * The request that fills the first chunk, one of alignment `lo` that opens a second chunk not far
   * behind it, and one of alignment `hi`, which is placed past the end of the first chunk.
   */
  function Crossing(size: nat, lo: nat, hi: nat): seq<Request>
    requires lo <= size
  {
    [Request(size, lo, hi), Request(hi, lo, size - lo + 2 * hi), Request(hi, hi, hi)]
  }

  lemma AfterFirst(size: nat, lo: nat, hi: nat, defaultSize: nat)
    requires 0 < lo && Divides(lo, hi) && defaultSize < size + lo
    ensures Alloc(Arena([], defaultSize), Request(size, lo, hi)) == Arena([Full(size, lo, hi)], defaultSize)
    ensures Place(Arena([], defaultSize), Request(size, lo, hi)) == Block(0, hi, size)
  {
    assert AlignForward(hi, lo) == hi;
  }

  /** The chunk that the second request opens, and fills up to `hi`. */
  function Second(size: nat, lo: nat, hi: nat, defaultSize: nat): Chunk
    requires 0 < lo <= size
  {
    Chunk(size - lo + 2 * hi, NewSize(hi, lo, defaultSize), size - lo + 3 * hi)
  }

  lemma AfterSecond(size: nat, lo: nat, hi: nat, defaultSize: nat)
    requires 0 < lo <= size && Divides(lo, hi) && Divides(lo, size) && !Fits(Full(size, lo, hi), hi, lo)
    ensures var a, q := Arena([Full(size, lo, hi)], defaultSize), Request(hi, lo, size - lo + 2 * hi);
            && Alloc(a, q) == Arena([Full(size, lo, hi), Second(size, lo, hi, defaultSize)], defaultSize)
            && Place(a, q) == Block(1, size - lo + 2 * hi, hi)
  {
    var a, q := Arena([Full(size, lo, hi)], defaultSize), Request(hi, lo, size - lo + 2 * hi);
    Multiple(lo, 1);
    DividesSum(lo, size, lo);
    DividesSum(lo, hi, hi);
    DividesSum(lo, size - lo, hi + hi);
    assert AlignForward(q.base, lo) == q.base;
    assert Find(a.chunks, hi, lo) == 1;
  }

  lemma AfterThird(size: nat, lo: nat, hi: nat, defaultSize: nat)
    requires 0 < lo < hi && lo <= size && Fits(Full(size, lo, hi), hi, hi) && Divides(hi, size - lo)
    ensures var c, d, q := Full(size, lo, hi), Second(size, lo, hi, defaultSize), Request(hi, hi, hi);
            var a := Arena([c, d], defaultSize);
            && Alloc(a, q).chunks == [c.(cursor := 2 * hi + size + lo), d]
            && Place(a, q) == Block(0, hi + size + lo, hi)
  {
    var a, q := Arena([Full(size, lo, hi), Second(size, lo, hi, defaultSize)], defaultSize), Request(hi, hi, hi);
    FullCursor(size, lo, hi);
    assert Find(a.chunks, hi, hi) == 0;
  }

  lemma ThreeSteps(a: Arena, qs: seq<Request>)
    requires Aligned(qs) && |qs| == 3
    ensures var b := Alloc(a, qs[0]);
            var c := Alloc(b, qs[1]);
            && Blocks(a, qs) == [Place(a, qs[0]), Place(b, qs[1]), Place(c, qs[2])]
            && After(a, qs) == Alloc(c, qs[2])
  {
    var b := Alloc(a, qs[0]);
    var c := Alloc(b, qs[1]);
    assert qs[1..][1..] == qs[2..] && qs[2..][1..] == [];
    assert qs[1..][0] == qs[1] && qs[2..][0] == qs[2];
    assert After(b, qs[1..]) == After(c, qs[2..]) == Alloc(c, qs[2]);
    assert Blocks(c, qs[2..]) == [Place(c, qs[2])];
    assert Blocks(b, qs[1..]) == [Place(b, qs[1])] + Blocks(c, qs[2..]);
  }

  lemma CrossingRanged(size: nat, lo: nat, hi: nat, defaultSize: nat)
    requires PowerOfTwo(lo) && PowerOfTwo(hi) && lo < hi && defaultSize + 4 * hi < WORD
    requires lo <= size <= defaultSize + hi + lo && Divides(lo, hi) && Divides(lo, size) && Divides(hi, size - lo)
    ensures Sized(Crossing(size, lo, hi), defaultSize) && Ranged(Crossing(size, lo, hi), lo, hi)
  {
    var qs := Crossing(size, lo, hi);
    Multiple(hi, 1);
    Multiple(hi, 2);
    DividesSum(hi, size - lo, 2 * hi);
    forall i | 0 <= i < |qs|
      ensures PowerOfTwo(qs[i].align) && lo <= qs[i].align <= hi && 0 < qs[i].size && Divides(qs[i].align, qs[i].size)
      ensures 0 < qs[i].base && Divides(hi, qs[i].base) && qs[i].size + (qs[i].align - 1) < WORD
    {
      assert i == 0 || i == 1 || i == 2;
    }
  }

  /**
   * The second and the third block of this run overlap, though the chunks are apart, and the third lies
   * outside its chunk.
   */
  lemma CrossingOverlaps(size: nat, lo: nat, hi: nat, defaultSize: nat)
    requires 0 < lo && 2 * lo <= hi && defaultSize < size && size + lo < WORD && hi + (hi - 1) < WORD
    requires lo <= size && Divides(lo, hi) && Divides(lo, size) && Divides(hi, size - lo)
    ensures var a, qs := Arena([], defaultSize), Crossing(size, lo, hi);
            && Aligned(qs)
            && Blocks(a, qs) == [Block(0, hi, size), Block(1, size - lo + 2 * hi, hi), Block(0, hi + size + lo, hi)]
            && ChunksApart(After(a, qs).chunks) && !BlockInside(a, qs, 2)
            && !Apart(Blocks(a, qs)[1], Blocks(a, qs)[2])
  {
    var a, qs := Arena([], defaultSize), Crossing(size, lo, hi);
    FullFits(size, lo, hi);
    AfterFirst(size, lo, hi, defaultSize);
    AfterSecond(size, lo, hi, defaultSize);
    AfterThird(size, lo, hi, defaultSize);
    ThreeSteps(a, qs);
  }

  lemma OneCrosses(a: Arena, qs: seq<Request>)
    requires Aligned(qs) && |qs| == 3 && !BlockInside(a, qs, 2) && !Apart(Blocks(a, qs)[1], Blocks(a, qs)[2])
    ensures !AllInside(a, qs) && !AllApart(a, qs)
  {
  }

  lemma CrossingFails(size: nat, lo: nat, hi: nat, defaultSize: nat)
    requires 0 < lo && 2 * lo <= hi && defaultSize < size && size + lo < WORD && hi + (hi - 1) < WORD
    requires lo <= size && Divides(lo, hi) && Divides(lo, size) && Divides(hi, size - lo)
    ensures var a, qs := Arena([], defaultSize), Crossing(size, lo, hi);
            Aligned(qs) && ChunksApart(After(a, qs).chunks) && !AllInside(a, qs) && !AllApart(a, qs)
  {
    CrossingOverlaps(size, lo, hi, defaultSize);
    OneCrosses(Arena([], defaultSize), Crossing(size, lo, hi));
  }

  /** With two alignments, some run leaves its chunk, and two of its blocks overlap. */
  lemma CrossingRun(lo: nat, hi: nat, defaultSize: nat) returns (qs: seq<Request>)
    requires PowerOfTwo(lo) && PowerOfTwo(hi) && lo < hi && defaultSize + 4 * hi < WORD
    ensures Sized(qs, defaultSize) && Ranged(qs, lo, hi) && ChunksApart(After(Arena([], defaultSize), qs).chunks)
    ensures !AllInside(Arena([], defaultSize), qs) && !AllApart(Arena([], defaultSize), qs)
  {
    var size := FillingSize(lo, hi, defaultSize);
    qs := Crossing(size, lo, hi);
    CrossingFails(size, lo, hi, defaultSize);
    CrossingRanged(size, lo, hi, defaultSize);
  }

  /** The blocks of all runs lie inside their chunks if and only if only one alignment is asked for. */
  lemma AlwaysInsideExactlyWhen(lo: nat, hi: nat, defaultSize: nat)
    requires PowerOfTwo(lo) && PowerOfTwo(hi) && lo <= hi && defaultSize + 4 * hi < WORD
    ensures AlwaysInside(lo, hi, defaultSize) <==> lo == hi
  {
    if lo == hi {
      SameIsInside(lo, defaultSize);
    } else {
      var qs := CrossingRun(lo, hi, defaultSize);
    }
  }

  /** The blocks of all runs are pairwise disjoint if and only if only one alignment is asked for. */
  lemma AlwaysApartExactlyWhen(lo: nat, hi: nat, defaultSize: nat)
    requires PowerOfTwo(lo) && PowerOfTwo(hi) && lo <= hi && defaultSize + 4 * hi < WORD
    ensures AlwaysApart(lo, hi, defaultSize) <==> lo == hi
  {
    if lo == hi {
      SameIsApart(lo, defaultSize);
    } else {
      var qs := CrossingRun(lo, hi, defaultSize);
    }
  }

  /**
   * Three requests on a new arena with chunks of sixteen bytes: the last two are handed the same eight
   * bytes, at address 40.
   */
  lemma OverlapHappens()
    ensures var a, qs := Arena([], 16), [Request(28, 4, 8), Request(8, 4, 40), Request(8, 8, 8)];
            && Sized(qs, 16) && ChunksApart(After(a, qs).chunks)
            && Blocks(a, qs) == [Block(0, 8, 28), Block(1, 40, 8), Block(0, 40, 8)]
  {
    assert Crossing(28, 4, 8) == [Request(28, 4, 8), Request(8, 4, 40), Request(8, 8, 8)];
    assert PowerOfTwo(4) && PowerOfTwo(8) by { assert PowerOfTwo(2); }
    CrossingRanged(28, 4, 8, 16);
    CrossingOverlaps(28, 4, 8, 16);
  }
}
