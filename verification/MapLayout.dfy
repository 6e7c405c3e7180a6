/**
 * The four blocks of a hash map, laid out by `alloc_sequentially_n`: the map itself, its buckets, the
 * keys and the values, on a machine with eight-byte pointers. For which key and value types they are
 * aligned, and fit into the space requested, whatever the capacity and the address.
 */
module MapLayout {
  import opened Arithmetic
  import opened Alignment
  import opened Layout

  /** The size of the map's own record, and size and alignment of a key and of a value. */
  datatype MapType = MapType(record: nat, keySize: nat, keyAlign: nat, valueSize: nat, valueAlign: nat)

  ghost predicate Typed(m: MapType) {
    && PowerOfTwo(m.keyAlign) && PowerOfTwo(m.valueAlign)
    && Divides(8, m.record) && Divides(m.keyAlign, m.keySize) && Divides(m.valueAlign, m.valueSize)
  }

  function MapBlocks(m: MapType, cap: nat): seq<Block> {
    [Block(m.record, 8), Block(16 * cap, 8),
     Block(m.keySize * cap, m.keyAlign), Block(m.valueSize * cap, m.valueAlign)]
  }

  lemma Eight()
    ensures PowerOfTwo(8) && PowerOfTwo(16) && PowerOfTwo(32)
  {
    assert PowerOfTwo(2) && PowerOfTwo(4);
  }

  lemma MultipleOf(d: nat, x: nat, k: nat)
    requires 0 < d && Divides(d, x)
    ensures Divides(d, x * k)
  {
    var q := x / d;
    assert x * k == d * (q * k) by { assert x == d * q; }
    Multiple(d, q * k);
  }

  lemma MapProper(m: MapType, cap: nat)
    requires Typed(m)
    ensures Proper(MapBlocks(m, cap))
  {
    Eight();
    Multiple(8, 2 * cap);
    MultipleOf(m.keyAlign, m.keySize, cap);
    MultipleOf(m.valueAlign, m.valueSize, cap);
  }

  /** All four pointers are aligned, for every capacity and every address the inner allocator may answer. */
  ghost predicate MapAligned(m: MapType)
  {
    forall cap: nat, base: nat | 0 < cap && 0 < base && Divides(8, base) ::
      Proper(MapBlocks(m, cap)) && AllAligned(MapBlocks(m, cap), base)
  }

  /** The last block ends within the space requested. */
  ghost predicate MapFits(m: MapType)
  {
    forall cap: nat, base: nat | 0 < cap && 0 < base && Divides(8, base) ::
      Proper(MapBlocks(m, cap)) && Fits(MapBlocks(m, cap), base)
  }

  /** The end of the bucket array. */
  function KeysFrom(m: MapType, cap: nat, base: nat): nat {
    base + m.record + 16 * cap
  }

  lemma MapPtrs(m: MapType, cap: nat, base: nat)
    requires Typed(m) && Divides(8, base)
    ensures Divides(8, KeysFrom(m, cap, base))
    ensures var blocks := MapBlocks(m, cap);
            && PtrOf(blocks, base, 0) == base && PtrOf(blocks, base, 1) == base + m.record
            && PtrOf(blocks, base, 2) == AlignForward(KeysFrom(m, cap, base), m.keyAlign)
            && PtrOf(blocks, base, 3) == AlignForward(PtrOf(blocks, base, 2) + m.keySize * cap, m.valueAlign)
  {
    var blocks := MapBlocks(m, cap);
    DividesSum(8, base, m.record);
    Multiple(8, 2 * cap);
    DividesSum(8, base + m.record, 16 * cap);
    assert PtrOf(blocks, base, 1) == AlignForward(PtrOf(blocks, base, 0) + blocks[0].size, 8);
    assert PtrOf(blocks, base, 2) == AlignForward(PtrOf(blocks, base, 1) + blocks[1].size, m.keyAlign);
    assert PtrOf(blocks, base, 3) == AlignForward(PtrOf(blocks, base, 2) + blocks[2].size, m.valueAlign);
  }

  /** The address that puts the end of the bucket array at `end`, for capacity one. */
  lemma BaseFor(m: MapType, end: nat) returns (base: nat)
    requires Typed(m) && Divides(8, end) && m.record + 16 < end
    ensures 0 < base && Divides(8, base) && KeysFrom(m, 1, base) == end
  {
    base := end - 16 - m.record;
    Multiple(8, 2);
    DividesSum(8, end, 16);
    DividesSum(8, end - 16, m.record);
  }

  // ---------------------------------------------------------------- alignment

  /** The keys are sure to start at a multiple of this. */
  function KeysSure(m: MapType): nat {
    if m.keyAlign <= 8 then 8 else m.keyAlign
  }

  /** A key array for an alignment of at most sixteen starts at the end of the buckets, or eight bytes further. */
  lemma KeysAligned(m: MapType, cap: nat, base: nat)
    requires Typed(m) && Divides(8, base) && m.keyAlign <= 16
    ensures var p := PtrOf(MapBlocks(m, cap), base, 2);
            Divides(m.keyAlign, p) && Divides(KeysSure(m), p) && PowerOfTwo(KeysSure(m))
  {
    Eight();
    MapPtrs(m, cap, base);
    var end := KeysFrom(m, cap, base);
    if m.keyAlign <= 8 {
      AlignForwardKeeps(end, 8, m.keyAlign);
    } else {
      PowersApart(8, m.keyAlign);
      AlignForwardDoubles(end, 8, m.keyAlign);
    }
  }

  /** The values are aligned exactly when half their alignment divides the end of the keys. */
  lemma ValuesAligned(m: MapType, cap: nat, base: nat)
    requires Typed(m) && Divides(8, base) && 1 < m.valueAlign
    ensures var end := PtrOf(MapBlocks(m, cap), base, 2) + m.keySize * cap;
            Divides(m.valueAlign, PtrOf(MapBlocks(m, cap), base, 3)) <==> Divides(m.valueAlign / 2, end)
  {
    MapPtrs(m, cap, base);
    AlignForwardHalf(PtrOf(MapBlocks(m, cap), base, 2) + m.keySize * cap, m.valueAlign / 2);
  }

  /** What a user of the map can check of its key and value types. */
  predicate AlignedTypes(m: MapType)
    requires 0 < m.valueAlign
  {
    m.keyAlign <= 16 && m.valueAlign <= 2 * KeysSure(m) && Divides(m.valueAlign, 2 * m.keySize)
  }

  lemma HalfOf(a: nat, x: nat)
    requires 0 < a && a % 2 == 0
    ensures Divides(a, 2 * x) <==> Divides(a / 2, x)
  {
    var h := a / 2;
    if Divides(h, x) { DoubleDivides(h, x); }
    if Divides(a, 2 * x) {
      var k := 2 * x / a;
      assert 2 * x == 2 * (h * k) by { assert a * k == 2 * h * k; }
      Multiple(h, k);
    }
  }

  lemma GoodTypesAligned(m: MapType, cap: nat, base: nat)
    requires Typed(m) && AlignedTypes(m) && Divides(8, base)
    ensures var blocks := MapBlocks(m, cap);
            forall i :: 0 <= i < 4 ==> Divides(blocks[i].align, PtrOf(blocks, base, i))
  {
    MapPtrs(m, cap, base);
    DividesSum(8, base, m.record);
    KeysAligned(m, cap, base);
    var p := PtrOf(MapBlocks(m, cap), base, 2);
    if m.valueAlign == 1 {
      ModUnique(PtrOf(MapBlocks(m, cap), base, 3), 1, PtrOf(MapBlocks(m, cap), base, 3), 0);
    } else {
      var h := m.valueAlign / 2;
      HalfOf(m.valueAlign, m.keySize);
      MultipleOf(h, m.keySize, cap);
      PowersDivide(h, KeysSure(m));
      DividesThrough(h, KeysSure(m), p);
      DividesSum(h, p, m.keySize * cap);
      ValuesAligned(m, cap, base);
    }
  }

  /** Of two numbers less than `h` apart, `h` divides at most one. */
  lemma OneOfTwo(x: nat, g: nat, h: nat)
    requires 0 < g < h && Divides(h, x)
    ensures !Divides(h, x + g)
  {
    CongruentRemainder(x + g, g, h);
    ModUnique(g, h, 0, g);
  }

  /** A multiple of `g` beyond the map's record and one bucket. */
  lemma Beyond(m: MapType, g: nat) returns (x: nat)
    requires PowerOfTwo(g) && 8 <= g
    ensures Divides(g, x) && Divides(g, x + g) && Divides(8, x) && Divides(8, x + g) && m.record + 16 < x
  {
    Eight();
    PowersDivide(8, g);
    x := g * (m.record + 17);
    Multiple(g, m.record + 17);
    Multiple(g, 1);
    DividesSum(g, x, g);
    DividesThrough(8, g, x);
    DividesThrough(8, g, x + g);
    MulAtLeast(m.record + 17, g);
  }

  /** Keys of a larger alignment are misplaced if the buckets end eight bytes behind a multiple of it. */
  lemma LargeKeys(m: MapType) returns (base: nat)
    requires Typed(m) && 16 < m.keyAlign
    ensures 0 < base && Divides(8, base) && !Divides(m.keyAlign, PtrOf(MapBlocks(m, 1), base, 2))
  {
    var a := m.keyAlign;
    var x := Beyond(m, a);
    Multiple(8, 1);
    DividesSum(8, x, 8);
    base := BaseFor(m, x + 8);
    MapPtrs(m, 1, base);
    CongruentRemainder(x + 8, 8, a);
    ModUnique(8, a, 0, 8);
    OneOfTwo(x, 16, a);
  }

  /** With the buckets ending at a multiple of what is sure, the keys start there. */
  lemma KeysThere(m: MapType, base: nat)
    requires Typed(m) && Divides(8, base) && m.keyAlign <= 16 && Divides(KeysSure(m), KeysFrom(m, 1, base))
    ensures PtrOf(MapBlocks(m, 1), base, 2) == KeysFrom(m, 1, base)
  {
    Eight();
    MapPtrs(m, 1, base);
    AlignForwardKeeps(KeysFrom(m, 1, base), KeysSure(m), m.keyAlign);
  }

  /**
   * For smaller keys, values are misplaced at one of two addresses if half their alignment is larger than
   * what is sure.
   */
  lemma LargeValues(m: MapType) returns (base: nat)
    requires Typed(m) && m.keyAlign <= 16 && 2 * KeysSure(m) < m.valueAlign
    ensures 0 < base && Divides(8, base) && !Divides(m.valueAlign, PtrOf(MapBlocks(m, 1), base, 3))
  {
    Eight();
    var g, h := KeysSure(m), m.valueAlign / 2;
    var x := Beyond(m, g);
    if Divides(h, x + m.keySize) {
      OneOfTwo(x + m.keySize, g, h);
      base := BaseFor(m, x + g);
    } else {
      base := BaseFor(m, x);
    }
    KeysThere(m, base);
    ValuesAligned(m, 1, base);
  }

  /** Values whose alignment does not divide twice the key size are misplaced behind a single key, at any address. */
  lemma OddKeys(m: MapType, base: nat)
    requires Typed(m) && m.keyAlign <= 16 && m.valueAlign <= 2 * KeysSure(m) && !Divides(m.valueAlign, 2 * m.keySize)
    requires Divides(8, base)
    ensures !Divides(m.valueAlign, PtrOf(MapBlocks(m, 1), base, 3))
  {
    if m.valueAlign > 1 {
      var h, p := m.valueAlign / 2, PtrOf(MapBlocks(m, 1), base, 2);
      KeysAligned(m, 1, base);
      HalfOf(m.valueAlign, m.keySize);
      PowersDivide(h, KeysSure(m));
      DividesThrough(h, KeysSure(m), p);
      ValuesAligned(m, 1, base);
      if Divides(h, p + m.keySize) { DividesSum(h, p + m.keySize, p); }
    }
  }

  /** An address at which some block of a map of capacity one is misaligned. */
  lemma BadAddress(m: MapType) returns (base: nat)
    requires Typed(m) && !AlignedTypes(m)
    ensures 0 < base && Divides(8, base)
    ensures !Divides(m.keyAlign, PtrOf(MapBlocks(m, 1), base, 2)) ||
            !Divides(m.valueAlign, PtrOf(MapBlocks(m, 1), base, 3))
  {
    if 16 < m.keyAlign {
      base := LargeKeys(m);
    } else if 2 * KeysSure(m) < m.valueAlign {
      base := LargeValues(m);
    } else {
      base := 8;
      Multiple(8, 1);
      OddKeys(m, base);
    }
  }

  /**
   * The blocks of a map are aligned, for all capacities and addresses, if and only if keys are aligned
   * to at most sixteen, values to at most twice what the keys' start is sure to be a multiple of, and
   * the value alignment divides twice the key size.
   */
  lemma MapAlignedExactlyWhen(m: MapType)
    requires Typed(m)
    ensures MapAligned(m) <==> AlignedTypes(m)
  {
    if AlignedTypes(m) {
      forall cap: nat, base: nat | 0 < cap && 0 < base && Divides(8, base)
        ensures Proper(MapBlocks(m, cap)) && AllAligned(MapBlocks(m, cap), base)
      {
        MapProper(m, cap);
        GoodTypesAligned(m, cap, base);
      }
    } else {
      var base := BadAddress(m);
      MapProper(m, 1);
      var blocks := MapBlocks(m, 1);
      assert blocks[2].align == m.keyAlign && blocks[3].align == m.valueAlign;
      assert !AllAligned(blocks, base);
    }
  }

  // ---------------------------------------------------------------- space

  /** What a user of the map can check of its key and value types. */
  predicate FittingTypes(m: MapType) {
    m.keyAlign <= 16 || m.valueAlign <= 16
  }

  lemma FourNoLoss(aligns: seq<nat>)
    requires |aligns| == 4 && aligns[0] == aligns[1] == 8
    ensures (forall i :: 0 <= i < |aligns| - 1 ==> NoLoss(aligns, i)) <==> aligns[2] <= 16 || aligns[3] <= 16
  {
    assert Sure(aligns, 0) == 8;
    assert Sure(aligns, 1) == 8;
    assert Sure(aligns, 2) == if 16 <= aligns[2] then 16 else aligns[2];
    assert NoLoss(aligns, 0) && NoLoss(aligns, 1);
    assert NoLoss(aligns, 2) <==> aligns[2] <= 16 || aligns[3] <= 16;
  }

  lemma GoodTypesFit(m: MapType)
    requires Typed(m) && FittingTypes(m)
    ensures MapFits(m)
  {
    var aligns := [8, 8, m.keyAlign, m.valueAlign];
    Eight();
    FourNoLoss(aligns);
    FitsExactlyWhen(aligns);
    forall cap: nat, base: nat | 0 < cap && 0 < base && Divides(8, base)
      ensures Proper(MapBlocks(m, cap)) && Fits(MapBlocks(m, cap), base)
    {
      MapProper(m, cap);
      assert Aligns(MapBlocks(m, cap)) == aligns;
      assert Request(MapBlocks(m, cap), aligns, base);
    }
  }

  lemma MapSize(m: MapType)
    ensures SizeUpTo(MapBlocks(m, 1), 3) ==
              m.record + 16 + Pad(8, m.keyAlign) + m.keySize + Pad(m.keyAlign, m.valueAlign) + m.valueSize
  {
    var blocks := MapBlocks(m, 1);
    assert SizeUpTo(blocks, 0) == m.record;
    assert SizeUpTo(blocks, 1) == SizeUpTo(blocks, 0) + Pad(8, 8) + 16;
    assert SizeUpTo(blocks, 2) == SizeUpTo(blocks, 1) + Pad(8, m.keyAlign) + m.keySize;
    assert SizeUpTo(blocks, 3) == SizeUpTo(blocks, 2) + Pad(m.keyAlign, m.valueAlign) + m.valueSize;
  }

  /** A common multiple of both alignments, far enough from zero. */
  lemma Common(m: MapType) returns (x: nat)
    requires Typed(m)
    ensures Divides(m.keyAlign, x) && Divides(m.valueAlign, x) && m.record + m.keySize + m.keyAlign + 24 < x
  {
    var h := if m.keyAlign <= m.valueAlign then m.valueAlign else m.keyAlign;
    PowersDivide(m.keyAlign, h);
    PowersDivide(m.valueAlign, h);
    var k := m.record + m.keySize + m.keyAlign + 25;
    x := h * k;
    Multiple(h, k);
    DividesThrough(m.keyAlign, h, x);
    DividesThrough(m.valueAlign, h, x);
    MulAtLeast(k, h);
  }

  /** The buckets end eight bytes short of where both paddings become as large as they can be. */
  lemma TightAddress(m: MapType, x: nat) returns (base: nat)
    requires Typed(m) && 16 < m.keyAlign && 16 < m.valueAlign
    requires Divides(m.keyAlign, x) && Divides(m.valueAlign, x) && m.record + m.keySize + m.keyAlign + 24 < x
    ensures 0 < base && Divides(8, base) && base == x - 24 - m.keyAlign - m.keySize - m.record
    ensures PtrOf(MapBlocks(m, 1), base, 3) == x - 16 + (m.valueAlign - 16)
  {
    Eight();
    var a, end := m.keyAlign, x - 8 - m.keyAlign - m.keySize;
    Multiple(a, 1);
    DividesSum(a, x, a);
    DividesSum(a, x - a, m.keySize);
    PowersDivide(8, a);
    DividesThrough(8, a, end + 8);
    Multiple(8, 1);
    DividesSum(8, end + 8, 8);
    base := BaseFor(m, end);
    JustBelow(end, 8, a);
    JustBelow(x - 16, 16, m.valueAlign);
    MapPtrs(m, 1, base);
  }

  lemma LargeTypesOverrun(m: MapType)
    requires Typed(m) && !FittingTypes(m)
    ensures !MapFits(m)
  {
    var x := Common(m);
    var base := TightAddress(m, x);
    Eight();
    PowersApart(16, m.keyAlign);
    MapProper(m, 1);
    MapSize(m);
    var blocks := MapBlocks(m, 1);
    assert EndOf(blocks, base, 3) == PtrOf(blocks, base, 3) + m.valueSize;
    assert !Fits(blocks, base);
  }

  /**
   * The blocks of a map fit into the space requested, for all capacities and addresses, if and only if
   * keys or values are aligned to at most sixteen.
   */
  lemma MapFitsExactlyWhen(m: MapType)
    requires Typed(m)
    ensures MapFits(m) <==> FittingTypes(m)
  {
    if FittingTypes(m) { GoodTypesFit(m); } else { LargeTypesOverrun(m); }
  }

  /** Keys of five characters and eight-byte values: the values of a map of capacity one are misaligned. */
  lemma CharKeysMisalign()
    ensures var m := MapType(160, 5, 1, 8, 8); Typed(m) && !MapAligned(m) && MapFits(m)
  {
    var m := MapType(160, 5, 1, 8, 8);
    Eight();
    MapAlignedExactlyWhen(m);
    MapFitsExactlyWhen(m);
  }
}
