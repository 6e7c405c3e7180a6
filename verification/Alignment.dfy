/**
 * `align_forward` of lib/core/core.h as it is written: it adds the remainder of the address, not
 * the distance to the next multiple.
 */
module Alignment {
  import opened Arithmetic

  function AlignForward(ptr: nat, alignment: nat): (p: nat)
    requires 0 < alignment
    ensures ptr <= p < ptr + alignment
  {
    ptr + ptr % alignment
  }

  /**
   * The result is aligned exactly when the address already was, or was off by half the alignment.
   */
  lemma AlignForwardMeaning(ptr: nat, alignment: nat)
    requires 0 < alignment
    ensures Divides(alignment, AlignForward(ptr, alignment)) <==>
            ptr % alignment == 0 || 2 * (ptr % alignment) == alignment
  {
    var r := ptr % alignment;
    RemainderCongruent(ptr, alignment);
    CongruentRemainder(ptr + r, 2 * r, alignment);
    if Divides(alignment, 2 * r) { SmallMultiple(alignment, 2 * r); }
    if 2 * r == alignment { Multiple(alignment, 1); }
  }

  /** An address aligned to `g` is left alone by every smaller alignment. */
  lemma AlignForwardKeeps(ptr: nat, g: nat, alignment: nat)
    requires PowerOfTwo(g) && PowerOfTwo(alignment) && alignment <= g && Divides(g, ptr)
    ensures AlignForward(ptr, alignment) == ptr && Divides(alignment, ptr)
  {
    PowersDivide(alignment, g);
    DividesThrough(alignment, g, ptr);
  }

  /** An address aligned to `g` comes out aligned to `2 * g`, and moves by at most the difference of the alignments. */
  lemma AlignForwardDoubles(ptr: nat, g: nat, alignment: nat)
    requires PowerOfTwo(g) && PowerOfTwo(alignment) && g < alignment && Divides(g, ptr)
    ensures AlignForward(ptr, alignment) <= ptr + alignment - g
    ensures 2 * g <= alignment && Divides(2 * g, AlignForward(ptr, alignment))
  {
    var r := ptr % alignment;
    RemainderCongruent(ptr, alignment);
    PowersApart(g, alignment);
    PowersDivide(g, alignment);
    DividesThrough(g, alignment, ptr - r);
    DividesSum(g, ptr, ptr - r);
    MultipleGap(g, alignment, r);
    DoubleDivides(g, ptr);
    DividesThrough(2 * g, alignment, ptr - r);
    DividesSum(2 * g, 2 * ptr, ptr - r);
  }

  lemma DoubleDivides(g: nat, x: nat)
    requires 0 < g && Divides(g, x)
    ensures Divides(2 * g, 2 * x)
  {
    var k := x / g;
    assert 2 * x == (2 * g) * k;
    Multiple(2 * g, k);
  }

  /** An even alignment is met exactly from the multiples of half of it. */
  lemma AlignForwardHalf(ptr: nat, half: nat)
    requires 0 < half
    ensures Divides(2 * half, AlignForward(ptr, 2 * half)) <==> Divides(half, ptr)
  {
    var r := ptr % (2 * half);
    AlignForwardMeaning(ptr, 2 * half);
    RemainderCongruent(ptr, 2 * half);
    Multiple(half, 2);
    DividesThrough(half, 2 * half, ptr - r);
    if Divides(half, ptr) {
      DividesSum(half, ptr, ptr - r);
      SmallMultiple(half, r);
    }
    if r == 0 || r == half {
      Multiple(half, 1);
      DividesSum(half, ptr - r, r);
    }
  }

  /**
   * The least multiple of the alignment that is not below the address, which is what callers take
   * `align_forward` for.
   */
  function AlignUp(ptr: nat, alignment: nat): (p: nat)
    requires 0 < alignment
    ensures ptr <= p < ptr + alignment && Divides(alignment, p)
  {
    RemainderCongruent(ptr, alignment);
    Multiple(alignment, 1);
    DividesSum(alignment, ptr - ptr % alignment, alignment);
    if ptr % alignment == 0 then ptr else ptr - ptr % alignment + alignment
  }

  /** `align_forward` is rounding up exactly on the addresses it aligns. */
  lemma RoundsUpExactlyWhen(ptr: nat, alignment: nat)
    requires 0 < alignment
    ensures AlignForward(ptr, alignment) == AlignUp(ptr, alignment) <==>
            Divides(alignment, AlignForward(ptr, alignment))
  {
    AlignForwardMeaning(ptr, alignment);
  }

  /** Rounding up an address aligned to `g` moves it by at most the difference of the alignments. */
  lemma AlignUpPads(ptr: nat, g: nat, alignment: nat)
    requires PowerOfTwo(g) && PowerOfTwo(alignment) && Divides(g, ptr)
    ensures AlignUp(ptr, alignment) <= ptr + if alignment > g then alignment - g else 0
  {
    if alignment <= g {
      AlignForwardKeeps(ptr, g, alignment);
    } else {
      var p := AlignUp(ptr, alignment);
      PowersDivide(g, alignment);
      DividesThrough(g, alignment, p);
      DividesSum(g, p, ptr);
      MultipleGap(g, alignment, p - ptr);
    }
  }
}
