/**
 * `alloc_sequentially_n` of lib/core/core.h: several blocks in one allocation. Alignments are
 * powers of two and each size is a multiple of its alignment, as the header asks.
 */
module Layout {
  import opened Arithmetic
  import opened Alignment

  datatype Block = Block(size: nat, align: nat)

  ghost predicate Proper(blocks: seq<Block>) {
    forall i :: 0 <= i < |blocks| ==> PowerOfTwo(blocks[i].align) && Divides(blocks[i].align, blocks[i].size)
  }

  /** The padding reserved between blocks of alignments `a` and `b`. */
  function Pad(a: nat, b: nat): nat {
    if b > a then b - a else 0
  }

  /** The size requested for the first `i + 1` blocks. */
  function SizeUpTo(blocks: seq<Block>, i: nat): nat
    requires i < |blocks|
  {
    if i == 0 then blocks[0].size
    else SizeUpTo(blocks, i - 1) + Pad(blocks[i - 1].align, blocks[i].align) + blocks[i].size
  }

  /** The pointer handed out for block `i`. */
  function PtrOf(blocks: seq<Block>, base: nat, i: nat): nat
    requires i < |blocks| && forall j :: 0 <= j < |blocks| ==> 0 < blocks[j].align
  {
    if i == 0 then base
    else AlignForward(PtrOf(blocks, base, i - 1) + blocks[i - 1].size, blocks[i].align)
  }

  function EndOf(blocks: seq<Block>, base: nat, i: nat): nat
    requires i < |blocks| && forall j :: 0 <= j < |blocks| ==> 0 < blocks[j].align
  {
    PtrOf(blocks, base, i) + blocks[i].size
  }

  /** The first loop: the size to request. */
  method RequestSize(blocks: seq<Block>) returns (size: nat)
    requires 2 <= |blocks|
    ensures size == SizeUpTo(blocks, |blocks| - 1)
  {
    size := blocks[0].size;
    for i := 0 to |blocks| - 1
      invariant size == SizeUpTo(blocks, i)
    {
      var size2, align1, align2 := blocks[i + 1].size, blocks[i].align, blocks[i + 1].align;
      var pad := if align2 > align1 then align2 - align1 else 0;
      size := size + pad + size2;
    }
  }

  ghost predicate PlacedUpTo(outPtrs: seq<nat>, blocks: seq<Block>, base: nat, n: nat)
    requires n <= |blocks| == |outPtrs| && forall j :: 0 <= j < |blocks| ==> 0 < blocks[j].align
  {
    forall i :: 0 <= i < n ==> outPtrs[i] == PtrOf(blocks, base, i)
  }

  /** The second loop: the pointers, from the address the inner allocator returned. */
  method PlaceBlocks(blocks: seq<Block>, base: nat, outPtrs: array<nat>)
    requires 0 < outPtrs.Length == |blocks| && forall j :: 0 <= j < |blocks| ==> 0 < blocks[j].align
    modifies outPtrs
    ensures PlacedUpTo(outPtrs[..], blocks, base, |blocks|)
  {
    var p: nat := base;
    for i := 0 to |blocks| - 1
      invariant p == PtrOf(blocks, base, i) && PlacedUpTo(outPtrs[..], blocks, base, i)
    {
      ghost var before := outPtrs[..];
      outPtrs[i] := p;
      assert outPtrs[..] == before[i := p];
      p := AlignForward(p + blocks[i].size, blocks[i + 1].align);
    }
    outPtrs[|blocks| - 1] := p;
  }

  /** `base` is what the inner allocator returns for the requested size. */
  method AllocSequentiallyN(blocks: seq<Block>, base: nat, outPtrs: array<nat>) returns (size: nat)
    requires outPtrs.Length == |blocks| && forall j :: 0 <= j < |blocks| ==> 0 < blocks[j].align
    modifies outPtrs
    ensures size == if blocks == [] then 0 else SizeUpTo(blocks, |blocks| - 1)
    ensures forall i :: 0 <= i < |blocks| ==> outPtrs[i] == PtrOf(blocks, base, i)
  {
    if |blocks| < 2 {
      if |blocks| < 1 {
        return 0;
      }
      outPtrs[0] := base;
      return blocks[0].size;
    }
    size := RequestSize(blocks);
    PlaceBlocks(blocks, base, outPtrs);
    assert forall i :: 0 <= i < |blocks| ==> outPtrs[i] == outPtrs[..][i];
  }

  method AllocSequentiallyTwo(size1: nat, align1: nat, size2: nat, align2: nat, base: nat)
    returns (size: nat, out1: nat, out2: nat)
    requires 0 < align1 && 0 < align2
    ensures var blocks := [Block(size1, align1), Block(size2, align2)];
            size == SizeUpTo(blocks, 1) && out1 == PtrOf(blocks, base, 0) && out2 == PtrOf(blocks, base, 1)
  {
    var pad := if align2 > align1 then align2 - align1 else 0;
    size := size1 + pad + size2;
    out1 := base;
    out2 := AlignForward(base + size1, align2);
    var blocks := [Block(size1, align1), Block(size2, align2)];
    assert PtrOf(blocks, base, 1) == AlignForward(PtrOf(blocks, base, 0) + blocks[0].size, blocks[1].align);
    assert SizeUpTo(blocks, 1) == SizeUpTo(blocks, 0) + Pad(align1, align2) + size2;
  }

  // ---------------------------------------------------------------- order

  /** Blocks come in order and do not overlap, whatever the alignments. */
  lemma {:induction false} BlocksOrdered(blocks: seq<Block>, base: nat, i: nat, j: nat)
    requires i < j < |blocks| && Proper(blocks)
    ensures base <= PtrOf(blocks, base, i) && EndOf(blocks, base, i) <= PtrOf(blocks, base, j)
    decreases j
  {
    if i + 1 < j { BlocksOrdered(blocks, base, i, j - 1); } else if i > 0 { BlocksOrdered(blocks, base, i - 1, i); }
  }

  // ---------------------------------------------------------------- guaranteed alignment

  function Aligns(blocks: seq<Block>): (aligns: seq<nat>)
    ensures |aligns| == |blocks| && forall i :: 0 <= i < |blocks| ==> aligns[i] == blocks[i].align
  {
    seq(|blocks|, i requires 0 <= i < |blocks| => blocks[i].align)
  }

  ghost predicate Powers(aligns: seq<nat>) {
    forall i :: 0 <= i < |aligns| ==> PowerOfTwo(aligns[i])
  }

  /** The power of two that the pointer of block `i` is sure to be a multiple of. */
  function Sure(aligns: seq<nat>, i: nat): nat
    requires i < |aligns|
  {
    if i == 0 then aligns[0]
    else if 2 * Sure(aligns, i - 1) <= aligns[i] then 2 * Sure(aligns, i - 1)
    else aligns[i]
  }

  lemma {:induction false} SureBounds(aligns: seq<nat>, i: nat)
    requires i < |aligns| && Powers(aligns)
    ensures PowerOfTwo(Sure(aligns, i)) && Sure(aligns, i) <= aligns[i]
    ensures Divides(Sure(aligns, i), aligns[i])
  {
    if i > 0 { SureBounds(aligns, i - 1); }
    PowersDivide(Sure(aligns, i), aligns[i]);
  }

  /** The end of a block keeps the guarantee of its start. */
  lemma EndSure(blocks: seq<Block>, base: nat, i: nat, g: nat)
    requires i < |blocks| && Proper(blocks) && PowerOfTwo(g) && g <= blocks[i].align
    requires Divides(g, PtrOf(blocks, base, i))
    ensures Divides(g, EndOf(blocks, base, i))
  {
    PowersDivide(g, blocks[i].align);
    DividesThrough(g, blocks[i].align, blocks[i].size);
    DividesSum(g, PtrOf(blocks, base, i), blocks[i].size);
  }

  lemma {:induction false} PtrSure(blocks: seq<Block>, base: nat, i: nat)
    requires i < |blocks| && Proper(blocks) && Divides(blocks[0].align, base)
    ensures var g := Sure(Aligns(blocks), i);
            PowerOfTwo(g) && g <= blocks[i].align && Divides(g, PtrOf(blocks, base, i))
  {
    var aligns := Aligns(blocks);
    SureBounds(aligns, i);
    if i > 0 {
      PtrSure(blocks, base, i - 1);
      var g := Sure(aligns, i - 1);
      EndSure(blocks, base, i - 1, g);
      if aligns[i] <= g {
        AlignForwardKeeps(EndOf(blocks, base, i - 1), g, aligns[i]);
      } else {
        AlignForwardDoubles(EndOf(blocks, base, i - 1), g, aligns[i]);
      }
    }
  }

  // ---------------------------------------------------------------- when every pointer is aligned

  /** A call with these alignments that meets what the header asks of sizes and the allocator of `base`. */
  ghost predicate Request(blocks: seq<Block>, aligns: seq<nat>, base: nat) {
    Proper(blocks) && Aligns(blocks) == aligns && 0 < base && (blocks != [] ==> Divides(blocks[0].align, base))
  }

  ghost predicate AllAligned(blocks: seq<Block>, base: nat)
    requires Proper(blocks)
  {
    forall i :: 0 <= i < |blocks| ==> Divides(blocks[i].align, PtrOf(blocks, base, i))
  }

  ghost predicate AlwaysAligned(aligns: seq<nat>) {
    forall blocks: seq<Block>, base: nat :: Request(blocks, aligns, base) ==> AllAligned(blocks, base)
  }

  lemma {:induction false} SureFull(aligns: seq<nat>, i: nat)
    requires i < |aligns| && Powers(aligns)
    requires forall j :: 0 <= j < |aligns| - 1 ==> aligns[j + 1] <= 2 * aligns[j]
    ensures Sure(aligns, i) == aligns[i]
  {
    if i > 0 {
      SureFull(aligns, i - 1);
      assert aligns[i - 1 + 1] <= 2 * aligns[i - 1];
    }
  }

  /** A common multiple of the alignments: the largest of them. */
  function Largest(aligns: seq<nat>): (h: nat)
    requires Powers(aligns)
    ensures PowerOfTwo(h) && forall i :: 0 <= i < |aligns| ==> aligns[i] <= h
  {
    if aligns == [] then 1
    else
      var last := |aligns| - 1;
      assert Powers(aligns[..last]) && forall i :: 0 <= i < last ==> aligns[i] == aligns[..last][i];
      var h := Largest(aligns[..last]);
      if aligns[last] <= h then h else aligns[last]
  }

  /** Blocks that take up whole multiples of every alignment, but for block `i`, which is a single unit of its own. */
  function OneUnit(aligns: seq<nat>, i: nat): (blocks: seq<Block>)
    requires Powers(aligns)
    ensures |blocks| == |aligns|
    ensures forall j :: 0 <= j < |blocks| ==>
              blocks[j] == Block(if j == i then aligns[j] else Largest(aligns), aligns[j])
  {
    seq(|aligns|, j requires 0 <= j < |aligns| => Block(if j == i then aligns[j] else Largest(aligns), aligns[j]))
  }

  lemma {:induction false} OneUnitPtr(aligns: seq<nat>, i: nat, j: nat)
    requires j <= i < |aligns| && Powers(aligns)
    ensures Divides(Largest(aligns), PtrOf(OneUnit(aligns, i), Largest(aligns), j))
  {
    var h, blocks := Largest(aligns), OneUnit(aligns, i);
    Multiple(h, 1);
    if j > 0 {
      OneUnitPtr(aligns, i, j - 1);
      var q := PtrOf(blocks, h, j - 1);
      DividesSum(h, q, h);
      AlignForwardKeeps(q + h, h, aligns[j]);
    }
  }

  /** A proper call, of blocks that are not empty, whose block after `i` is misaligned. */
  lemma OneUnitMisaligned(aligns: seq<nat>, i: nat)
    requires i + 1 < |aligns| && Powers(aligns) && 2 * aligns[i] < aligns[i + 1]
    ensures var blocks, base := OneUnit(aligns, i), Largest(aligns);
            && Request(blocks, aligns, base) && (forall j :: 0 <= j < |blocks| ==> 0 < blocks[j].size)
            && !Divides(aligns[i + 1], PtrOf(blocks, base, i + 1))
  {
    var blocks, h := OneUnit(aligns, i), Largest(aligns);
    OneUnitPtr(aligns, i, i);
    var a, b, q := aligns[i], aligns[i + 1], PtrOf(blocks, h, i);
    PowersDivide(b, h);
    DividesThrough(b, h, q);
    CongruentRemainder(q + a, a, b);
    ModUnique(a, b, 0, a);
    CongruentRemainder(q + 2 * a, 2 * a, b);
    ModUnique(2 * a, b, 0, 2 * a);
    forall j | 0 <= j < |blocks| ensures Divides(blocks[j].align, blocks[j].size) && Divides(blocks[j].align, h) {
      Multiple(blocks[j].align, 1);
      PowersDivide(blocks[j].align, h);
    }
  }

  /**
   * Every pointer is aligned in every call with these alignments if and only if no alignment is
   * more than twice the one before it.
   */
  lemma AlignedExactlyWhen(aligns: seq<nat>)
    requires Powers(aligns)
    ensures AlwaysAligned(aligns) <==> forall i :: 0 <= i < |aligns| - 1 ==> aligns[i + 1] <= 2 * aligns[i]
  {
    if i :| 0 <= i < |aligns| - 1 && 2 * aligns[i] < aligns[i + 1] {
      OneUnitMisaligned(aligns, i);
      assert !AllAligned(OneUnit(aligns, i), Largest(aligns));
    } else {
      forall blocks: seq<Block>, base: nat | Request(blocks, aligns, base) ensures AllAligned(blocks, base) {
        forall i | 0 <= i < |blocks| ensures Divides(blocks[i].align, PtrOf(blocks, base, i)) {
          SureFull(aligns, i);
          PtrSure(blocks, base, i);
        }
      }
    }
  }

  // ---------------------------------------------------------------- when the blocks fit

  /** How far the padding after block `i` can exceed the padding reserved for it. */
  function ExcessAt(aligns: seq<nat>, i: nat): int
    requires i + 1 < |aligns|
  {
    Pad(Sure(aligns, i), aligns[i + 1]) - Pad(aligns[i], aligns[i + 1])
  }

  function Excess(aligns: seq<nat>, i: nat): int
    requires i < |aligns|
  {
    if i == 0 then 0 else Excess(aligns, i - 1) + ExcessAt(aligns, i - 1)
  }

  /** The padding before a block is at most what the sure alignment of the block before leaves open. */
  lemma PtrWithin(blocks: seq<Block>, base: nat, i: nat)
    requires i + 1 < |blocks| && Proper(blocks) && Divides(blocks[0].align, base)
    ensures PtrOf(blocks, base, i + 1) <= EndOf(blocks, base, i) + Pad(Sure(Aligns(blocks), i), blocks[i + 1].align)
  {
    PtrSure(blocks, base, i);
    var g, q, a := Sure(Aligns(blocks), i), EndOf(blocks, base, i), blocks[i + 1].align;
    EndSure(blocks, base, i, g);
    if a <= g { AlignForwardKeeps(q, g, a); } else { AlignForwardDoubles(q, g, a); }
  }

  lemma {:induction false} EndWithin(blocks: seq<Block>, base: nat, i: nat)
    requires i < |blocks| && Proper(blocks) && Divides(blocks[0].align, base)
    ensures EndOf(blocks, base, i) <= base + SizeUpTo(blocks, i) + Excess(Aligns(blocks), i)
  {
    if i > 0 {
      EndWithin(blocks, base, i - 1);
      PtrWithin(blocks, base, i - 1);
    }
  }

  // Sizes that make every padding as large as it can be, starting from an address of the first alignment.

  lemma JustBelow(q: nat, g: nat, a: nat)
    requires 0 < g < a && Divides(a, q + g)
    ensures q % a == a - g
  {
    Multiple(a, 1);
    DividesSum(a, q + g, a);
    CongruentRemainder(q, a - g, a);
    ModUnique(a - g, a, 0, a - g);
  }

  lemma WorstNear(q: nat, g: nat, a: nat)
    requires 0 < a && 0 < g && Divides(a, g) && Divides(a, q + g)
    ensures AlignForward(q, a) == q && Divides(a, q + a)
  {
    Multiple(a, 1);
    DividesSum(a, q + g, g);
    DividesSum(a, q, a);
  }

  lemma WorstFar(q: nat, g: nat, a: nat)
    requires 0 < g < a && Divides(a, q + g)
    ensures AlignForward(q, a) == q + a - g && Divides(a, q + a - g + 2 * g)
  {
    Multiple(a, 1);
    JustBelow(q, g, a);
    DividesSum(a, q + g, a);
  }

  /** One worst-case step: the padding is maximal and the next pointer is as badly aligned as it can be. */
  lemma WorstStep(q: nat, g: nat, a: nat)
    requires PowerOfTwo(g) && PowerOfTwo(a) && Divides(a, q + g)
    ensures AlignForward(q, a) == q + Pad(g, a)
    ensures Divides(a, AlignForward(q, a) + if 2 * g <= a then 2 * g else a)
  {
    if a <= g {
      PowersDivide(a, g);
      WorstNear(q, g, a);
    } else {
      PowersApart(g, a);
      WorstFar(q, g, a);
    }
  }

  /** A positive number of units of alignment `a` that completes `x` to a multiple of alignment `b`. */
  lemma Complement(x: nat, a: nat, b: nat) returns (c: nat)
    requires PowerOfTwo(a) && PowerOfTwo(b) && Divides(a, x)
    ensures 0 < c && Divides(a, c) && Divides(b, x + c)
  {
    if b <= a {
      PowersDivide(b, a);
      DividesThrough(b, a, x);
      c := a;
      Multiple(a, 1);
      DividesSum(b, x, a);
    } else {
      c := b - x % b;
      RemainderCongruent(x, b);
      Multiple(b, 1);
      DividesSum(b, x - x % b, b);
      PowersDivide(a, b);
      DividesThrough(a, b, x + c);
      DividesSum(a, x + c, x);
    }
  }

  /** Up to block `n`, every block ends as far past an aligned address as its sure alignment allows. */
  ghost predicate Worst(blocks: seq<Block>, base: nat, n: nat)
    requires Proper(blocks)
  {
    forall i :: 0 <= i < n && i + 1 < |blocks| ==>
      Divides(blocks[i + 1].align, EndOf(blocks, base, i) + Sure(Aligns(blocks), i))
  }

  lemma WorstNext(blocks: seq<Block>, base: nat, n: nat, i: nat)
    requires Proper(blocks) && Worst(blocks, base, n) && i < n && i + 1 < |blocks|
    ensures PtrOf(blocks, base, i + 1) == EndOf(blocks, base, i) + Pad(Sure(Aligns(blocks), i), blocks[i + 1].align)
    ensures Divides(blocks[i + 1].align, PtrOf(blocks, base, i + 1) + Sure(Aligns(blocks), i + 1))
  {
    SureBounds(Aligns(blocks), i);
    WorstStep(EndOf(blocks, base, i), Sure(Aligns(blocks), i), blocks[i + 1].align);
  }

  lemma EndStep(blocks: seq<Block>, base: nat, i: nat)
    requires i + 1 < |blocks| && Proper(blocks)
    requires EndOf(blocks, base, i) == base + SizeUpTo(blocks, i) + Excess(Aligns(blocks), i)
    requires PtrOf(blocks, base, i + 1) == EndOf(blocks, base, i) + Pad(Sure(Aligns(blocks), i), blocks[i + 1].align)
    ensures EndOf(blocks, base, i + 1) == base + SizeUpTo(blocks, i + 1) + Excess(Aligns(blocks), i + 1)
  {
  }

  /** Such blocks reach the bound on the end exactly. */
  lemma {:induction false} WorstEnd(blocks: seq<Block>, base: nat, n: nat, i: nat)
    requires i <= n && i < |blocks| && Proper(blocks) && Worst(blocks, base, n)
    ensures EndOf(blocks, base, i) == base + SizeUpTo(blocks, i) + Excess(Aligns(blocks), i)
  {
    if i > 0 {
      WorstEnd(blocks, base, n, i - 1);
      WorstNext(blocks, base, n, i - 1);
      EndStep(blocks, base, i - 1);
    }
  }

  /** A pointer does not depend on the sizes of later blocks. */
  lemma {:induction false} PtrLocal(blocks: seq<Block>, blocks': seq<Block>, base: nat, i: nat)
    requires i < |blocks| == |blocks'| && Proper(blocks) && Proper(blocks') && Aligns(blocks) == Aligns(blocks')
    requires forall j :: 0 <= j < i ==> blocks'[j] == blocks[j]
    ensures PtrOf(blocks', base, i) == PtrOf(blocks, base, i)
  {
    assert Aligns(blocks')[i] == Aligns(blocks)[i];
    if i > 0 { PtrLocal(blocks, blocks', base, i - 1); }
  }

  /** Resizing block `n` extends the worst case by one block. */
  lemma ExtendWorst(before: seq<Block>, base: nat, n: nat, size: nat)
    requires n + 1 < |before| && Proper(before) && Worst(before, base, n) && Divides(before[n].align, size)
    requires Divides(before[n + 1].align, PtrOf(before, base, n) + size + Sure(Aligns(before), n))
    ensures var blocks := before[n := Block(size, before[n].align)];
            Proper(blocks) && Aligns(blocks) == Aligns(before) && Worst(blocks, base, n + 1)
  {
    var blocks := before[n := Block(size, before[n].align)];
    assert Aligns(blocks) == Aligns(before);
    forall i | 0 <= i < n + 1
      ensures Divides(blocks[i + 1].align, EndOf(blocks, base, i) + Sure(Aligns(blocks), i))
    {
      PtrLocal(before, blocks, base, i);
      assert i < n ==> EndOf(blocks, base, i) == EndOf(before, base, i);
    }
  }

  lemma StartWorst(aligns: seq<nat>) returns (blocks: seq<Block>)
    requires aligns != [] && Powers(aligns)
    ensures Proper(blocks) && Aligns(blocks) == aligns && Divides(aligns[0], aligns[0] + Sure(aligns, 0))
    ensures forall j :: 0 <= j < |blocks| ==> 0 < blocks[j].size
  {
    blocks := seq(|aligns|, j requires 0 <= j < |aligns| => Block(aligns[j], aligns[j]));
    forall j | 0 <= j < |blocks| ensures Divides(blocks[j].align, blocks[j].size) { Multiple(aligns[j], 1); }
    Multiple(aligns[0], 2);
  }

  lemma StepWorst(before: seq<Block>, base: nat, n: nat) returns (blocks: seq<Block>)
    requires n + 1 < |before| && Proper(before) && Worst(before, base, n)
    requires Divides(before[n].align, PtrOf(before, base, n) + Sure(Aligns(before), n))
    ensures Proper(blocks) && Aligns(blocks) == Aligns(before) && Worst(blocks, base, n + 1)
    ensures Divides(blocks[n + 1].align, PtrOf(blocks, base, n + 1) + Sure(Aligns(blocks), n + 1))
    ensures (forall j :: 0 <= j < |before| ==> 0 < before[j].size) ==>
              forall j :: 0 <= j < |blocks| ==> 0 < blocks[j].size
  {
    var size := Complement(PtrOf(before, base, n) + Sure(Aligns(before), n), before[n].align, before[n + 1].align);
    blocks := before[n := Block(size, before[n].align)];
    ExtendWorst(before, base, n, size);
    WorstNext(blocks, base, n + 1, n);
  }

  lemma {:induction false} MakeWorst(aligns: seq<nat>, n: nat) returns (blocks: seq<Block>)
    requires n < |aligns| && Powers(aligns)
    ensures Proper(blocks) && Aligns(blocks) == aligns && Worst(blocks, aligns[0], n)
    ensures Divides(blocks[n].align, PtrOf(blocks, aligns[0], n) + Sure(Aligns(blocks), n))
    ensures forall j :: 0 <= j < |blocks| ==> 0 < blocks[j].size
  {
    if n == 0 {
      blocks := StartWorst(aligns);
    } else {
      var before := MakeWorst(aligns, n - 1);
      blocks := StepWorst(before, aligns[0], n - 1);
    }
  }

  /** No call with these alignments runs past the size it requests. */
  ghost predicate AlwaysFits(aligns: seq<nat>) {
    forall blocks: seq<Block>, base: nat :: Request(blocks, aligns, base) ==> Fits(blocks, base)
  }

  ghost predicate Fits(blocks: seq<Block>, base: nat)
    requires Proper(blocks)
  {
    blocks != [] ==> EndOf(blocks, base, |blocks| - 1) <= base + SizeUpTo(blocks, |blocks| - 1)
  }

  /** The block at `i` is sure to be aligned, or the next one asks for no more than is sure. */
  predicate NoLoss(aligns: seq<nat>, i: nat)
    requires i + 1 < |aligns|
  {
    Sure(aligns, i) == aligns[i] || aligns[i + 1] <= Sure(aligns, i)
  }

  lemma {:induction false} ExcessZero(aligns: seq<nat>, i: nat)
    requires i < |aligns| && Powers(aligns)
    ensures Excess(aligns, i) >= 0
    ensures Excess(aligns, i) == 0 <==> forall j :: 0 <= j < i ==> NoLoss(aligns, j)
  {
    if i > 0 {
      ExcessZero(aligns, i - 1);
      SureBounds(aligns, i - 1);
      assert ExcessAt(aligns, i - 1) == 0 <==> NoLoss(aligns, i - 1);
    }
  }

  /** A proper call, of blocks that are not empty, whose last block ends past the size requested. */
  lemma WorstOverruns(aligns: seq<nat>) returns (blocks: seq<Block>)
    requires aligns != [] && Powers(aligns) && Excess(aligns, |aligns| - 1) > 0
    ensures Request(blocks, aligns, aligns[0]) && !Fits(blocks, aligns[0])
    ensures forall j :: 0 <= j < |blocks| ==> 0 < blocks[j].size
  {
    blocks := MakeWorst(aligns, |aligns| - 1);
    WorstEnd(blocks, aligns[0], |aligns| - 1, |aligns| - 1);
    Multiple(aligns[0], 1);
  }

  /**
   * The requested size suffices in every call with these alignments if and only if a block whose
   * pointer is not sure to be aligned is never followed by one that asks for more than is sure.
   */
  lemma FitsExactlyWhen(aligns: seq<nat>)
    requires Powers(aligns)
    ensures AlwaysFits(aligns) <==> forall i :: 0 <= i < |aligns| - 1 ==> NoLoss(aligns, i)
  {
    if aligns != [] {
      var n := |aligns|;
      ExcessZero(aligns, n - 1);
      if Excess(aligns, n - 1) == 0 {
        forall blocks: seq<Block>, base: nat | Request(blocks, aligns, base) ensures Fits(blocks, base) {
          EndWithin(blocks, base, n - 1);
        }
      } else {
        var blocks := WorstOverruns(aligns);
      }
    }
  }

  /** Alignments that never more than double are fine in both respects. */
  lemma NoMoreThanDoubling(aligns: seq<nat>)
    requires Powers(aligns) && forall i :: 0 <= i < |aligns| - 1 ==> aligns[i + 1] <= 2 * aligns[i]
    ensures AlwaysAligned(aligns) && AlwaysFits(aligns)
  {
    AlignedExactlyWhen(aligns);
    forall i | 0 <= i < |aligns| - 1 ensures Sure(aligns, i) == aligns[i] { SureFull(aligns, i); }
    FitsExactlyWhen(aligns);
  }

  /** The pointers that rounding up would hand out. */
  function PtrUp(blocks: seq<Block>, base: nat, i: nat): nat
    requires i < |blocks| && forall j :: 0 <= j < |blocks| ==> 0 < blocks[j].align
  {
    if i == 0 then base else AlignUp(PtrUp(blocks, base, i - 1) + blocks[i - 1].size, blocks[i].align)
  }

  /**
   * With rounding up instead, the requested size would be right for all alignments: every pointer aligned,
   * every block within.
   */
  lemma {:induction false} RoundingUpFits(blocks: seq<Block>, base: nat, i: nat)
    requires i < |blocks| && Proper(blocks) && Divides(blocks[0].align, base)
    ensures Divides(blocks[i].align, PtrUp(blocks, base, i))
    ensures PtrUp(blocks, base, i) + blocks[i].size <= base + SizeUpTo(blocks, i)
  {
    if i > 0 {
      RoundingUpFits(blocks, base, i - 1);
      var q := PtrUp(blocks, base, i - 1) + blocks[i - 1].size;
      DividesSum(blocks[i - 1].align, PtrUp(blocks, base, i - 1), blocks[i - 1].size);
      AlignUpPads(q, blocks[i - 1].align, blocks[i].align);
    }
  }

  /** The layout of three blocks of alignments 1, 4 and 8 at address 2: misaligned, and two bytes short. */
  lemma QuadruplingFails()
    ensures var blocks := [Block(1, 1), Block(8, 4), Block(8, 8)];
            && Request(blocks, [1, 4, 8], 2)
            && !Divides(4, PtrOf(blocks, 2, 1)) && !Divides(8, PtrOf(blocks, 2, 2))
            && EndOf(blocks, 2, 2) > 2 + SizeUpTo(blocks, 2)
  {
    var blocks := [Block(1, 1), Block(8, 4), Block(8, 8)];
    assert PowerOfTwo(4) && PowerOfTwo(8) by { assert PowerOfTwo(1) && PowerOfTwo(2); }
    assert Aligns(blocks) == [1, 4, 8];
    assert PtrOf(blocks, 2, 0) == 2;
    assert PtrOf(blocks, 2, 1) == 6;
    assert PtrOf(blocks, 2, 2) == 20;
    assert SizeUpTo(blocks, 0) == 1;
    assert SizeUpTo(blocks, 1) == 12;
    assert SizeUpTo(blocks, 2) == 24;
  }
}
