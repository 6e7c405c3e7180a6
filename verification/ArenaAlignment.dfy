/**
 * For which alignments the blocks of every run are aligned, if sizes are multiples of the alignments
 * asked for and chunks start at multiples of the largest: exactly if the largest is at most twice
 * the smallest.
 */
module ArenaAlignment {
  import opened Arithmetic
  import opened Alignment
  import opened ArenaModel
  import opened ArenaSafety

  /**
   * Requests for alignments from `lo` to `hi`, of sizes that are multiples of them, in chunks that start at
   * multiples of `hi`.
   */
  ghost predicate Ranged(qs: seq<Request>, lo: nat, hi: nat) {
    forall i :: 0 <= i < |qs| ==>
      && PowerOfTwo(qs[i].align) && lo <= qs[i].align <= hi
      && 0 < qs[i].size && Divides(qs[i].align, qs[i].size)
      && 0 < qs[i].base && Divides(hi, qs[i].base)
  }

  ghost predicate AllAligned(a: Arena, qs: seq<Request>)
    requires Aligned(qs)
  {
    forall k :: 0 <= k < |qs| ==> Divides(qs[k].align, Blocks(a, qs)[k].ptr)
  }

  /** All blocks of all such runs on a new arena are aligned as asked. */
  ghost predicate AlwaysAligned(lo: nat, hi: nat, defaultSize: nat) {
    forall qs: seq<Request> :: Sized(qs, defaultSize) && Ranged(qs, lo, hi) ==> AllAligned(Arena([], defaultSize), qs)
  }

  // ---------------------------------------------------------------- at most twice

  /** A cursor on a multiple of `lo` is aligned, or half an alignment off, for `lo` and for `2 * lo`. */
  lemma CursorNear(cursor: nat, lo: nat, align: nat)
    requires PowerOfTwo(lo) && (align == lo || align == 2 * lo) && Divides(lo, cursor)
    ensures Divides(align, AlignForward(cursor, align))
  {
    if align == 2 * lo { AlignForwardHalf(cursor, lo); } else { AlignForwardMeaning(cursor, align); }
  }

  lemma NearStep(a: Arena, q: Request, lo: nat, hi: nat)
    requires PowerOfTwo(lo) && PowerOfTwo(hi) && lo <= hi <= 2 * lo && OnUnits(a.chunks, lo)
    requires Ranged([q], lo, hi)
    ensures 0 < q.align && Divides(q.align, Place(a, q).ptr) && OnUnits(Alloc(a, q).chunks, lo)
  {
    assert q == [q][0];
    if lo < q.align { PowersApart(lo, q.align); }
    PowersDivide(lo, hi);
    DividesThrough(lo, hi, q.base);
    PowersDivide(lo, q.align);
    DividesThrough(lo, q.align, q.size);
    var b := Place(a, q);
    CursorNear(Provided(a, q)[b.chunk].cursor, lo, q.align);
    DividesThrough(lo, q.align, b.ptr);
    DividesSum(lo, b.ptr, q.size);
  }

  lemma {:induction false} NearRun(a: Arena, qs: seq<Request>, lo: nat, hi: nat)
    requires PowerOfTwo(lo) && PowerOfTwo(hi) && lo <= hi <= 2 * lo && OnUnits(a.chunks, lo)
    requires Aligned(qs) && Ranged(qs, lo, hi)
    ensures AllAligned(a, qs)
    decreases |qs|
  {
    if qs != [] {
      NearStep(a, qs[0], lo, hi);
      NearRun(Alloc(a, qs[0]), qs[1..], lo, hi);
      assert forall k :: 0 < k < |qs| ==>
               qs[k] == qs[1..][k - 1] && Blocks(a, qs)[k] == Blocks(Alloc(a, qs[0]), qs[1..])[k - 1];
      assert Blocks(a, qs)[0] == Place(a, qs[0]);
    }
  }

  // ---------------------------------------------------------------- more than twice

  /** The second of two requests on a new arena, if it goes to the chunk of the first. */
  lemma SecondBlock(defaultSize: nat, p: Request, q: Request)
    requires 0 < p.align && 0 < q.align
    requires var a := Alloc(Arena([], defaultSize), p); |a.chunks| == 1 && Fits(a.chunks[0], q.size, q.align)
    ensures var a := Alloc(Arena([], defaultSize), p);
            Blocks(Arena([], defaultSize), [p, q])[1].ptr == AlignForward(a.chunks[0].cursor, q.align)
  {
    var a := Alloc(Arena([], defaultSize), p);
    assert Find(a.chunks, q.size, q.align) == 0;
    assert [p, q][1..] == [q];
    assert Blocks(Arena([], defaultSize), [p, q])[1] == Blocks(a, [q])[0] == Place(a, q);
  }

  lemma FirstChunk(size: nat, lo: nat, hi: nat, defaultSize: nat)
    requires 0 < lo && Divides(lo, hi)
    ensures Alloc(Arena([], defaultSize), Request(size, lo, hi)).chunks ==
              [Chunk(hi, NewSize(size, lo, defaultSize), hi + size)]
  {
    assert AlignForward(hi, lo) == hi;
  }

  /** A cursor `lo` past a multiple of `hi` moves by `lo`, which is too little. */
  lemma FarCursor(size: nat, lo: nat, hi: nat)
    requires 0 < lo && 2 * lo < hi && lo <= size && Divides(hi, size - lo)
    ensures AlignForward(hi + size, hi) == hi + size + lo && !Divides(hi, hi + size + lo)
  {
    Multiple(hi, 1);
    DividesSum(hi, hi, size - lo);
    CongruentRemainder(hi + size, lo, hi);
    ModUnique(lo, hi, 0, lo);
    CongruentRemainder(hi + size + lo, 2 * lo, hi);
    ModUnique(2 * lo, hi, 0, 2 * lo);
  }

  /** A first request whose chunk leaves room for the second, or so little that aligning the cursor overshoots. */
  lemma FarSize(lo: nat, hi: nat, defaultSize: nat) returns (size: nat)
    requires PowerOfTwo(lo) && PowerOfTwo(hi) && 2 * lo < hi
    ensures 0 < lo <= size <= lo + 2 * hi && Divides(lo, hi) && Divides(lo, size) && Divides(hi, size - lo)
    ensures size + lo + hi <= defaultSize || defaultSize <= size + lo - 1
  {
    size := if 2 * lo + hi <= defaultSize then lo else lo + 2 * hi;
    PowersDivide(lo, hi);
    Multiple(hi, 2);
    Multiple(hi, 0);
    Multiple(lo, 1);
    DividesThrough(lo, hi, 2 * hi);
    DividesSum(lo, lo, 2 * hi);
  }

  /** The second of these requests goes to the chunk of the first, and its block is misaligned. */
  lemma FarFails(size: nat, lo: nat, hi: nat, defaultSize: nat)
    requires 0 < lo <= size && 2 * lo < hi && Divides(lo, hi) && Divides(hi, size - lo)
    requires size + lo + hi <= defaultSize || defaultSize <= size + lo - 1
    requires size + lo < WORD && defaultSize < WORD && 2 * hi < WORD
    ensures var qs := [Request(size, lo, hi), Request(hi, hi, hi)];
            Aligned(qs) && !AllAligned(Arena([], defaultSize), qs)
  {
    var p, q := Request(size, lo, hi), Request(hi, hi, hi);
    FirstChunk(size, lo, hi, defaultSize);
    FarCursor(size, lo, hi);
    var c := Chunk(hi, NewSize(size, lo, defaultSize), hi + size);
    assert Bounded([c]);
    FitsMeaning(c, hi, hi);
    SecondBlock(defaultSize, p, q);
    var qs := [p, q];
    assert !Divides(qs[1].align, Blocks(Arena([], defaultSize), qs)[1].ptr);
  }

  /** Some run on a new arena with these alignments misaligns a block, whatever the default size. */
  lemma FarRun(lo: nat, hi: nat, defaultSize: nat) returns (qs: seq<Request>)
    requires PowerOfTwo(lo) && PowerOfTwo(hi) && 2 * lo < hi && 4 * hi <= WORD && defaultSize < WORD
    ensures Sized(qs, defaultSize) && Ranged(qs, lo, hi) && !AllAligned(Arena([], defaultSize), qs)
  {
    var size := FarSize(lo, hi, defaultSize);
    Multiple(hi, 1);
    qs := [Request(size, lo, hi), Request(hi, hi, hi)];
    FarFails(size, lo, hi, defaultSize);
  }

  /** The blocks of all such runs are aligned if and only if the largest alignment is at most twice the smallest. */
  lemma AlwaysAlignedExactlyWhen(lo: nat, hi: nat, defaultSize: nat)
    requires PowerOfTwo(lo) && PowerOfTwo(hi) && lo <= hi && 4 * hi <= WORD && defaultSize < WORD
    ensures AlwaysAligned(lo, hi, defaultSize) <==> hi <= 2 * lo
  {
    if hi <= 2 * lo {
      forall qs: seq<Request> | Sized(qs, defaultSize) && Ranged(qs, lo, hi)
        ensures AllAligned(Arena([], defaultSize), qs)
      {
        NearRun(Arena([], defaultSize), qs, lo, hi);
      }
    } else {
      var qs := FarRun(lo, hi, defaultSize);
    }
  }
}
