/**
 * The UTF-8 codec of lib/core/string.h, rune by rune: decoder and encoder as the source computes
 * them, and the grammar of RFC 3629, section 4, that their images are compared with.
 */
module Utf8 {

  type Byte = bv8
  type Rune = bv32

  const RUNE_LIMIT: Rune := 0x110000

  datatype Decoding =
    | Decoded(rune: Rune, size: nat)
    | EmptyString
    | IncompleteRune
    | InvalidRune

  function Bits(b: Byte, mask: Byte): Rune {
    (b & mask) as Rune
  }

  function Join2(a: Byte, b: Byte): Rune { (Bits(a, 0x1f) << 6) | Bits(b, 0x3f) }

  function Join3(a: Byte, b: Byte, c: Byte): Rune {
    (Bits(a, 0x0f) << 12) | (Bits(b, 0x3f) << 6) | Bits(c, 0x3f)
  }

  function Or4(p: Rune, q: Rune, r: Rune, s: Rune): Rune { p | q | r | s }

  function Join4(a: Byte, b: Byte, c: Byte, d: Byte): Rune {
    Or4(Bits(a, 0x07) << 18, Bits(b, 0x3f) << 12, Bits(c, 0x3f) << 6, Bits(d, 0x3f))
  }

  /** `str_next_rune`: the first rune and the number of bytes it takes. Continuation bytes are not checked. */
  function NextRune(s: seq<Byte>): (d: Decoding)
    ensures d.Decoded? ==> 1 <= d.size <= 4 && d.size <= |s|
  {
    if |s| < 1 then EmptyString
    else if s[0] < 0x80 then Decoded(s[0] as Rune, 1)
    else if s[0] < 0xe0 then if |s| < 2 then IncompleteRune else Decoded(Join2(s[0], s[1]), 2)
    else if s[0] < 0xf0 then if |s| < 3 then IncompleteRune else Decoded(Join3(s[0], s[1], s[2]), 3)
    else if s[0] < 0xf8 then if |s| < 4 then IncompleteRune else Decoded(Join4(s[0], s[1], s[2], s[3]), 4)
    else InvalidRune
  }

  function Lead2(r: Rune): Byte { (0xc0 | ((r & 0x7c0) >> 6)) as Byte }

  function Lead3(r: Rune): Byte { (0xe0 | ((r & 0xf000) >> 12)) as Byte }

  function Lead4(r: Rune): Byte { (0xf0 | ((r & 0x1c0000) >> 18)) as Byte }

  /** The continuation bytes, from the last one of a sequence to the first. */
  function Last(r: Rune): Byte { (0x80 | (r & 0x3f)) as Byte }

  function Middle(r: Rune): Byte { (0x80 | ((r & 0xfc0) >> 6)) as Byte }

  function Second4(r: Rune): Byte { (0x80 | ((r & 0x3f000) >> 12)) as Byte }

  /** The bytes `str_encode_next_rune` writes when the target is large enough. */
  function Encode(r: Rune): (bytes: seq<Byte>)
    requires r < RUNE_LIMIT
    ensures 1 <= |bytes| <= 4
  {
    if r < 0x80 then [(r & 0x7f) as Byte]
    else if r < 0x800 then [Lead2(r), Last(r)]
    else if r < 0x10000 then [Lead3(r), Middle(r), Last(r)]
    else [Lead4(r), Second4(r), Middle(r), Last(r)]
  }

  // ---------------------------------------------------------------- the grammar

  predicate Tail(b: Byte) { 0x80 <= b <= 0xbf }

  /** One character of the grammar of RFC 3629, section 4, with surrogates let through. */
  predicate WellFormed(c: seq<Byte>) {
    match |c|
    case 1 => c[0] <= 0x7f
    case 2 => 0xc2 <= c[0] <= 0xdf && Tail(c[1])
    case 3 => 0xe0 <= c[0] <= 0xef && Tail(c[1]) && Tail(c[2]) && (c[0] == 0xe0 ==> 0xa0 <= c[1])
    case 4 => 0xf0 <= c[0] <= 0xf4 && Tail(c[1]) && Tail(c[2]) && Tail(c[3]) &&
              (c[0] == 0xf0 ==> 0x90 <= c[1]) && (c[0] == 0xf4 ==> c[1] <= 0x8f)
    case _ => false
  }

  // ---------------------------------------------------------------- the bit fields

  lemma LastField(r: Rune)
    ensures Tail(Last(r)) && Bits(Last(r), 0x3f) == r & 0x3f
  {
  }

  lemma MiddleField(r: Rune)
    ensures Tail(Middle(r)) && Bits(Middle(r), 0x3f) << 6 == r & 0xfc0
  {
  }

  lemma SecondField(r: Rune)
    ensures Tail(Second4(r)) && Bits(Second4(r), 0x3f) << 12 == r & 0x3f000
  {
  }

  lemma Lead3Field(r: Rune)
    ensures 0xe0 <= Lead3(r) <= 0xef && Bits(Lead3(r), 0x0f) << 12 == r & 0xf000
  {
  }

  lemma Lead4Field(r: Rune)
    requires r < RUNE_LIMIT
    ensures 0xf0 <= Lead4(r) <= 0xf4 && Bits(Lead4(r), 0x07) << 18 == r & 0x1c0000
  {
  }

  lemma Fields3(r: Rune)
    requires r < 0x10000
    ensures (r & 0xf000) | (r & 0xfc0) | (r & 0x3f) == r
  {
  }

  lemma Fields4(r: Rune)
    requires r < RUNE_LIMIT
    ensures Or4(r & 0x1c0000, r & 0x3f000, r & 0xfc0, r & 0x3f) == r
  {
  }

  /** The shortest-form conditions on the second byte say that the rune is in the range of its length. */
  lemma Range3(r: Rune)
    requires r < 0x10000
    ensures 0x800 <= r <==> (Lead3(r) == 0xe0 ==> 0xa0 <= Middle(r))
  {
  }

  lemma Range4(r: Rune)
    requires r < RUNE_LIMIT
    ensures 0x10000 <= r <==> (Lead4(r) == 0xf0 ==> 0x90 <= Second4(r))
  {
  }

  lemma Limit4(r: Rune)
    requires r < RUNE_LIMIT
    ensures Lead4(r) == 0xf4 ==> Second4(r) <= 0x8f
  {
  }

  lemma JoinLast(a: Byte, b: Byte)
    requires Tail(b)
    ensures Last(Join2(a, b)) == b
  {
  }

  lemma JoinLead2(a: Byte, b: Byte)
    requires 0xc0 <= a < 0xe0
    ensures Lead2(Join2(a, b)) == a
  {
  }

  lemma Joined3Last(a: Byte, b: Byte, c: Byte)
    requires Tail(c)
    ensures Last(Join3(a, b, c)) == c
  {
  }

  lemma Joined3Middle(a: Byte, b: Byte, c: Byte)
    requires Tail(b)
    ensures Middle(Join3(a, b, c)) == b
  {
  }

  lemma Joined3Lead(a: Byte, b: Byte, c: Byte)
    requires 0xe0 <= a < 0xf0
    ensures Lead3(Join3(a, b, c)) == a
  {
  }

  lemma Joined3Below(a: Byte, b: Byte, c: Byte)
    ensures Join3(a, b, c) < 0x10000
  {
  }

  lemma Joined4Last(a: Byte, b: Byte, c: Byte, d: Byte)
    requires Tail(d)
    ensures Last(Join4(a, b, c, d)) == d
  {
  }

  lemma Joined4Middle(a: Byte, b: Byte, c: Byte, d: Byte)
    requires Tail(c)
    ensures Middle(Join4(a, b, c, d)) == c
  {
  }

  lemma Joined4Second(a: Byte, b: Byte, c: Byte, d: Byte)
    requires Tail(b)
    ensures Second4(Join4(a, b, c, d)) == b
  {
  }

  lemma Joined4Lead(a: Byte, b: Byte, c: Byte, d: Byte)
    requires 0xf0 <= a < 0xf8
    ensures Lead4(Join4(a, b, c, d)) == a
  {
  }

  lemma Joined4Below(a: Byte, b: Byte, c: Byte, d: Byte)
    requires a < 0xf4 || (a == 0xf4 && b <= 0x8f && Tail(b))
    requires 0xf0 <= a
    ensures Join4(a, b, c, d) < RUNE_LIMIT
  {
  }

  lemma Split1(r: Rune)
    requires r < 0x80
    ensures (r & 0x7f) as Byte < 0x80 && ((r & 0x7f) as Byte) as Rune == r
  {
  }

  lemma Split2(r: Rune)
    requires 0x80 <= r < 0x800
    ensures 0xc2 <= Lead2(r) <= 0xdf && Tail(Last(r)) && Join2(Lead2(r), Last(r)) == r
  {
  }

  lemma Ranges3(r: Rune)
    requires 0x800 <= r < 0x10000
    ensures 0xe0 <= Lead3(r) <= 0xef && Tail(Middle(r)) && Tail(Last(r)) && (Lead3(r) == 0xe0 ==> 0xa0 <= Middle(r))
  {
    Lead3Field(r);
    MiddleField(r);
    LastField(r);
    Range3(r);
  }

  lemma Joined3(r: Rune)
    requires r < 0x10000
    ensures Join3(Lead3(r), Middle(r), Last(r)) == r
  {
    Lead3Field(r);
    MiddleField(r);
    LastField(r);
    Fields3(r);
  }

  lemma Split3(r: Rune)
    requires 0x800 <= r < 0x10000
    ensures WellFormed([Lead3(r), Middle(r), Last(r)])
    ensures Join3(Lead3(r), Middle(r), Last(r)) == r
  {
    Ranges3(r);
    Joined3(r);
  }

  lemma Ranges4(r: Rune)
    requires 0x10000 <= r < RUNE_LIMIT
    ensures 0xf0 <= Lead4(r) <= 0xf4 && Tail(Second4(r)) && Tail(Middle(r)) && Tail(Last(r))
    ensures (Lead4(r) == 0xf0 ==> 0x90 <= Second4(r)) && (Lead4(r) == 0xf4 ==> Second4(r) <= 0x8f)
  {
    Lead4Field(r);
    SecondField(r);
    MiddleField(r);
    LastField(r);
    Range4(r);
    Limit4(r);
  }

  lemma Joined4(r: Rune)
    requires r < RUNE_LIMIT
    ensures Join4(Lead4(r), Second4(r), Middle(r), Last(r)) == r
  {
    Lead4Field(r);
    SecondField(r);
    MiddleField(r);
    LastField(r);
    Fields4(r);
  }

  lemma Split4(r: Rune)
    requires 0x10000 <= r < RUNE_LIMIT
    ensures WellFormed([Lead4(r), Second4(r), Middle(r), Last(r)])
    ensures Join4(Lead4(r), Second4(r), Middle(r), Last(r)) == r
  {
    Ranges4(r);
    Joined4(r);
  }

  // ---------------------------------------------------------------- one rune

  /** Decoding undoes encoding, whatever follows, and encodings are well-formed. */
  lemma DecodeEncode(r: Rune, rest: seq<Byte>)
    requires r < RUNE_LIMIT
    ensures NextRune(Encode(r) + rest) == Decoded(r, |Encode(r)|)
    ensures WellFormed(Encode(r))
  {
    if r < 0x80 { Split1(r); }
    else if r < 0x800 { Split2(r); }
    else if r < 0x10000 { Split3(r); }
    else { Split4(r); }
  }

  lemma WellFormed1(a: Byte)
    requires WellFormed([a])
    ensures a as Rune < 0x80 && Encode(a as Rune) == [a]
  {
  }

  lemma WellFormed2(a: Byte, b: Byte)
    requires WellFormed([a, b])
    ensures 0x80 <= Join2(a, b) < 0x800 && Encode(Join2(a, b)) == [a, b]
  {
    JoinLast(a, b);
    JoinLead2(a, b);
  }

  lemma WellFormed3(a: Byte, b: Byte, c: Byte)
    requires WellFormed([a, b, c])
    ensures 0x800 <= Join3(a, b, c) < 0x10000 && Encode(Join3(a, b, c)) == [a, b, c]
  {
    Joined3Lead(a, b, c);
    Joined3Middle(a, b, c);
    Joined3Last(a, b, c);
    Joined3Below(a, b, c);
    Range3(Join3(a, b, c));
  }

  lemma WellFormed4(a: Byte, b: Byte, c: Byte, d: Byte)
    requires WellFormed([a, b, c, d])
    ensures 0x10000 <= Join4(a, b, c, d) < RUNE_LIMIT && Encode(Join4(a, b, c, d)) == [a, b, c, d]
  {
    Joined4Lead(a, b, c, d);
    Joined4Second(a, b, c, d);
    Joined4Middle(a, b, c, d);
    Joined4Last(a, b, c, d);
    Joined4Below(a, b, c, d);
    Range4(Join4(a, b, c, d));
  }

  /** A well-formed character is the encoding of the rune it decodes to. */
  lemma WellFormedDecodes(c: seq<Byte>)
    requires WellFormed(c)
    ensures var d := NextRune(c);
            d.Decoded? && d.size == |c| && d.rune < RUNE_LIMIT && Encode(d.rune) == c
  {
    match |c|
    case 1 => WellFormed1(c[0]);
    case 2 => WellFormed2(c[0], c[1]);
    case 3 => WellFormed3(c[0], c[1], c[2]);
    case 4 => WellFormed4(c[0], c[1], c[2], c[3]);
  }

  /** A decoded rune takes at most as many bytes as were consumed, and exactly those bytes when they are well-formed. */
  lemma EncodeDecode(s: seq<Byte>)
    requires NextRune(s).Decoded? && NextRune(s).rune < RUNE_LIMIT
    ensures var d := NextRune(s);
            |Encode(d.rune)| <= d.size && (Encode(d.rune) == s[..d.size] <==> WellFormed(s[..d.size]))
  {
    var d := NextRune(s);
    var c := s[..d.size];
    if WellFormed(c) {
      WellFormedDecodes(c);
      assert NextRune(c) == d;
    }
    DecodeEncode(d.rune, []);
    match d.size
    case 2 => assert Join2(s[0], s[1]) < 0x800;
    case 3 => Joined3Below(s[0], s[1], s[2]);
    case _ =>
  }

  // ---------------------------------------------------------------- what decodes, and to what

  /** Every lead byte below 0xf8 is taken, and whatever bytes follow it, if there are enough. */
  lemma LenientDecodes(s: seq<Byte>)
    requires 4 <= |s| && s[0] < 0xf8
    ensures NextRune(s).Decoded?
  {
  }

  /** A rune does not depend on what follows its bytes, and needs all of them. */
  lemma ShorterIsIncomplete(s: seq<Byte>, n: nat)
    requires NextRune(s).Decoded? && 0 < n <= |s|
    ensures NextRune(s[..n]) == if n < NextRune(s).size then IncompleteRune else NextRune(s)
  {
  }

  /** A string that does not decode is empty, or the start of one that does and then incomplete, or else invalid. */
  lemma ErrorsExactlyWhen(s: seq<Byte>)
    ensures NextRune(s).EmptyString? <==> s == []
    ensures NextRune(s).IncompleteRune? <==>
            s != [] && !NextRune(s).Decoded? && exists t: seq<Byte> :: NextRune(s + t).Decoded?
    ensures NextRune(s).InvalidRune? <==> s != [] && forall t: seq<Byte> :: !NextRune(s + t).Decoded?
  {
    if s != [] {
      var t: seq<Byte> := [0, 0, 0, 0];
      assert forall u: seq<Byte> :: (s + u)[0] == s[0];
      if s[0] < 0xf8 { LenientDecodes(s + t); }
      assert s + [] == s;
    }
  }

  lemma RuneOf(s: seq<Byte>)
    requires NextRune(s).Decoded?
    ensures var d := NextRune(s);
            match d.size
            case 1 => s[0] < 0x80 && d.rune == s[0] as Rune
            case 2 => d.rune == Join2(s[0], s[1])
            case 3 => d.rune == Join3(s[0], s[1], s[2])
            case _ => d.rune == Join4(s[0], s[1], s[2], s[3])
  {
  }

  function Low6(r: Rune): Rune { r & 0x3f }

  function Drop6(r: Rune): Rune { r >> 6 }

  lemma Payload2(a: Byte, b: Byte)
    ensures Low6(Join2(a, b)) == Bits(b, 0x3f) && Drop6(Join2(a, b)) == Bits(a, 0x1f)
  {
  }

  lemma Payload3(a: Byte, b: Byte, c: Byte)
    ensures var r := Join3(a, b, c);
            && Low6(r) == Bits(c, 0x3f) && Low6(Drop6(r)) == Bits(b, 0x3f)
            && Drop6(Drop6(r)) == Bits(a, 0x0f)
  {
  }

  lemma Payload4(a: Byte, b: Byte, c: Byte, d: Byte)
    ensures var r := Join4(a, b, c, d);
            && Low6(r) == Bits(d, 0x3f) && Low6(Drop6(r)) == Bits(c, 0x3f)
            && Low6(Drop6(Drop6(r))) == Bits(b, 0x3f) && Drop6(Drop6(Drop6(r))) == Bits(a, 0x07)
  {
  }

  /** The payload of a two-byte sequence: the low five bits of the first byte and six bits of the second. */
  lemma PayloadOf2(s: seq<Byte>)
    requires NextRune(s).Decoded? && NextRune(s).size == 2
    ensures var r := NextRune(s).rune; Low6(r) == Bits(s[1], 0x3f) && Drop6(r) == Bits(s[0], 0x1f)
  {
    RuneOf(s);
    Payload2(s[0], s[1]);
  }

  /** The payload of a three-byte sequence: four bits of the first byte and six of each other, in order. */
  lemma PayloadOf3(s: seq<Byte>)
    requires NextRune(s).Decoded? && NextRune(s).size == 3
    ensures var r := NextRune(s).rune;
            && Low6(r) == Bits(s[2], 0x3f) && Low6(Drop6(r)) == Bits(s[1], 0x3f)
            && Drop6(Drop6(r)) == Bits(s[0], 0x0f)
  {
    RuneOf(s);
    Payload3(s[0], s[1], s[2]);
  }

  /** The payload of a four-byte sequence: three bits of the first byte and six of each other, in order. */
  lemma PayloadOf4(s: seq<Byte>)
    requires NextRune(s).Decoded? && NextRune(s).size == 4
    ensures var r := NextRune(s).rune;
            && Low6(r) == Bits(s[3], 0x3f) && Low6(Drop6(r)) == Bits(s[2], 0x3f)
            && Low6(Drop6(Drop6(r))) == Bits(s[1], 0x3f) && Drop6(Drop6(Drop6(r))) == Bits(s[0], 0x07)
  {
    RuneOf(s);
    Payload4(s[0], s[1], s[2], s[3]);
  }
}
