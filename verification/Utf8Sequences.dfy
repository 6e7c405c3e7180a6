/**
 * Whole strings: decoding undoes encoding, encodings are prefix-free and keep the order of the
 * runes, and re-encoding arbitrary decoded bytes gives them back exactly when they are well-formed.
 */
module Utf8Sequences {
  import opened Utf8

  ghost predicate Encodable(rs: seq<Rune>) {
    forall i :: 0 <= i < |rs| ==> rs[i] < RUNE_LIMIT
  }

  function EncodeAll(rs: seq<Rune>): seq<Byte>
    requires Encodable(rs)
  {
    if rs == [] then [] else Encode(rs[0]) + EncodeAll(rs[1..])
  }

  /** The runes decoded before the first one that fails, and how that one fails; `EmptyString` is the regular end. */
  function DecodeAll(s: seq<Byte>): (r: (seq<Rune>, Decoding))
    ensures !r.1.Decoded?
    decreases |s|
  {
    var d := NextRune(s);
    if d.Decoded? then
      var rest := DecodeAll(s[d.size..]);
      ([d.rune] + rest.0, rest.1)
    else ([], d)
  }

  /** RFC 3629, section 3: decoding the concatenated encodings yields the runes, with nothing left. */
  lemma {:induction false} RoundTrip(rs: seq<Rune>)
    requires Encodable(rs)
    ensures DecodeAll(EncodeAll(rs)) == (rs, EmptyString)
  {
    if rs != [] {
      var rest := EncodeAll(rs[1..]);
      DecodeEncode(rs[0], rest);
      assert EncodeAll(rs)[|Encode(rs[0])|..] == rest;
      RoundTrip(rs[1..]);
      assert rs == [rs[0]] + rs[1..];
    }
  }

  // ---------------------------------------------------------------- equality and prefix

  lemma EncodeInjective(xs: seq<Rune>, ys: seq<Rune>)
    requires Encodable(xs) && Encodable(ys)
    ensures EncodeAll(xs) == EncodeAll(ys) <==> xs == ys
  {
    RoundTrip(xs);
    RoundTrip(ys);
  }

  /** A string starts with the encoding of one rune at most. */
  lemma OneFirstRune(x: Rune, y: Rune, w: seq<Byte>, v: seq<Byte>)
    requires x < RUNE_LIMIT && y < RUNE_LIMIT && Encode(x) + w == Encode(y) + v
    ensures x == y
  {
    DecodeEncode(x, w);
    DecodeEncode(y, v);
  }

  lemma BehindPrefix(c: seq<Byte>, u: seq<Byte>, s: seq<Byte>)
    requires c + u <= s
    ensures s == c + s[|c|..] && u <= s[|c|..]
  {
    assert s == (c + u) + s[|c + u|..];
    assert s[|c|..] == u + s[|c + u|..];
  }

  /** Encodings of different runes are not prefixes of one another, whatever follows. */
  lemma PrefixFree(x: Rune, y: Rune, u: seq<Byte>, v: seq<Byte>)
    requires x < RUNE_LIMIT && y < RUNE_LIMIT && Encode(x) + u <= Encode(y) + v
    ensures x == y && u <= v
  {
    var s := Encode(y) + v;
    BehindPrefix(Encode(x), u, s);
    OneFirstRune(x, y, s[|Encode(x)|..], v);
    assert v == s[|Encode(y)|..];
  }

  lemma EncodeCons(r: Rune, rs: seq<Rune>)
    requires r < RUNE_LIMIT && Encodable(rs)
    ensures Encodable([r] + rs) && EncodeAll([r] + rs) == Encode(r) + EncodeAll(rs)
  {
    assert ([r] + rs)[0] == r && ([r] + rs)[1..] == rs;
  }

  lemma {:induction false} EncodeConcat(xs: seq<Rune>, ys: seq<Rune>)
    requires Encodable(xs) && Encodable(ys)
    ensures Encodable(xs + ys) && EncodeAll(xs + ys) == EncodeAll(xs) + EncodeAll(ys)
  {
    if xs == [] {
      assert xs + ys == ys;
    } else {
      EncodeConcat(xs[1..], ys);
      EncodeCons(xs[0], xs[1..] + ys);
      assert xs + ys == [xs[0]] + (xs[1..] + ys);
    }
  }

  lemma {:induction false} BytePrefixIsRunePrefix(xs: seq<Rune>, ys: seq<Rune>)
    requires Encodable(xs) && Encodable(ys) && EncodeAll(xs) <= EncodeAll(ys)
    ensures xs <= ys
  {
    if xs != [] && ys != [] {
      PrefixFree(xs[0], ys[0], EncodeAll(xs[1..]), EncodeAll(ys[1..]));
      BytePrefixIsRunePrefix(xs[1..], ys[1..]);
      assert xs == [xs[0]] + xs[1..] && ys == [ys[0]] + ys[1..];
    }
  }

  /** One encoded string is a byte prefix of another exactly when it is a prefix rune by rune. */
  lemma PrefixExactlyWhen(xs: seq<Rune>, ys: seq<Rune>)
    requires Encodable(xs) && Encodable(ys)
    ensures EncodeAll(xs) <= EncodeAll(ys) <==> xs <= ys
  {
    if EncodeAll(xs) <= EncodeAll(ys) { BytePrefixIsRunePrefix(xs, ys); }
    if xs <= ys {
      EncodeConcat(xs, ys[|xs|..]);
      assert ys == xs + ys[|xs|..];
    }
  }

  // ---------------------------------------------------------------- order

  predicate BytesBefore(a: seq<Byte>, b: seq<Byte>) {
    b != [] && (a == [] || a[0] < b[0] || (a[0] == b[0] && BytesBefore(a[1..], b[1..])))
  }

  predicate RunesBefore(a: seq<Rune>, b: seq<Rune>) {
    b != [] && (a == [] || a[0] < b[0] || (a[0] == b[0] && RunesBefore(a[1..], b[1..])))
  }

  lemma SmallerFirst(a: Byte, b: Byte, u: seq<Byte>, v: seq<Byte>)
    requires a < b
    ensures BytesBefore([a] + u, [b] + v) && !BytesBefore([b] + v, [a] + u)
  {
  }

  lemma SameFirst(a: Byte, u: seq<Byte>, v: seq<Byte>)
    ensures BytesBefore([a] + u, [a] + v) <==> BytesBefore(u, v)
  {
    assert ([a] + u)[1..] == u && ([a] + v)[1..] == v;
  }

  // The leading bytes of encodings of the same length never decrease with the rune, and neither do
  // the later bytes when all earlier ones agree.

  lemma Lead2Order(x: Rune, y: Rune)
    requires x < y < 0x800
    ensures Lead2(x) <= Lead2(y)
  {
  }

  lemma Last2Order(x: Rune, y: Rune)
    requires x < y < 0x800
    ensures Lead2(x) == Lead2(y) ==> Last(x) < Last(y)
  {
  }

  lemma Lead3Order(x: Rune, y: Rune)
    requires x < y < 0x10000
    ensures Lead3(x) <= Lead3(y)
  {
  }

  lemma Middle3Order(x: Rune, y: Rune)
    requires x < y < 0x10000
    ensures Lead3(x) == Lead3(y) ==> Middle(x) <= Middle(y)
  {
  }

  lemma Last3Order(x: Rune, y: Rune)
    requires x < y < 0x10000
    ensures Lead3(x) == Lead3(y) && Middle(x) == Middle(y) ==> Last(x) < Last(y)
  {
  }

  lemma Lead4Order(x: Rune, y: Rune)
    requires x < y < RUNE_LIMIT
    ensures Lead4(x) <= Lead4(y)
  {
  }

  lemma Second4Order(x: Rune, y: Rune)
    requires x < y < RUNE_LIMIT
    ensures Lead4(x) == Lead4(y) ==> Second4(x) <= Second4(y)
  {
  }

  lemma Middle4Order(x: Rune, y: Rune)
    requires x < y < RUNE_LIMIT
    ensures Lead4(x) == Lead4(y) && Second4(x) == Second4(y) ==> Middle(x) <= Middle(y)
  {
  }

  lemma Last4Order(x: Rune, y: Rune)
    requires x < y < RUNE_LIMIT
    ensures Lead4(x) == Lead4(y) && Second4(x) == Second4(y) && Middle(x) == Middle(y) ==> Last(x) < Last(y)
  {
  }

  /** `a` comes before `b`, and not the other way round. */
  ghost predicate Precedes(a: seq<Byte>, b: seq<Byte>) {
    BytesBefore(a, b) && !BytesBefore(b, a)
  }

  lemma Before1(a: Byte, a': Byte, u: seq<Byte>, v: seq<Byte>)
    requires a < a' || (a == a' && Precedes(u, v))
    ensures Precedes([a] + u, [a'] + v)
  {
    if a < a' {
      SmallerFirst(a, a', u, v);
    } else {
      SameFirst(a, u, v);
      SameFirst(a, v, u);
    }
  }

  lemma Before2(a: Byte, b: Byte, a': Byte, b': Byte, u: seq<Byte>, v: seq<Byte>)
    requires a <= a' && (a == a' ==> b < b' || (b == b' && Precedes(u, v)))
    ensures Precedes([a, b] + u, [a', b'] + v)
  {
    assert [a, b] + u == [a] + ([b] + u) && [a', b'] + v == [a'] + ([b'] + v);
    if a == a' { Before1(b, b', u, v); }
    Before1(a, a', [b] + u, [b'] + v);
  }

  lemma Before3(a: Byte, b: Byte, c: Byte, a': Byte, b': Byte, c': Byte, u: seq<Byte>, v: seq<Byte>)
    requires a <= a' && (a == a' ==> b <= b') && (a == a' && b == b' ==> c < c' || (c == c' && Precedes(u, v)))
    ensures Precedes([a, b, c] + u, [a', b', c'] + v)
  {
    assert [a, b, c] + u == [a] + ([b, c] + u) && [a', b', c'] + v == [a'] + ([b', c'] + v);
    if a == a' { Before2(b, c, b', c', u, v); }
    Before1(a, a', [b, c] + u, [b', c'] + v);
  }

  lemma Before4(a: Byte, b: Byte, c: Byte, d: Byte, a': Byte, b': Byte, c': Byte, d': Byte, u: seq<Byte>, v: seq<Byte>)
    requires a <= a' && (a == a' ==> b <= b') && (a == a' && b == b' ==> c <= c')
    requires a == a' && b == b' && c == c' ==> d < d'
    ensures Precedes([a, b, c, d] + u, [a', b', c', d'] + v)
  {
    assert [a, b, c, d] + u == [a] + ([b, c, d] + u) && [a', b', c', d'] + v == [a'] + ([b', c', d'] + v);
    if a == a' { Before3(b, c, d, b', c', d', u, v); }
    Before1(a, a', [b, c, d] + u, [b', c', d'] + v);
  }

  lemma Order2(x: Rune, y: Rune, u: seq<Byte>, v: seq<Byte>)
    requires 0x80 <= x < y < 0x800
    ensures Precedes([Lead2(x), Last(x)] + u, [Lead2(y), Last(y)] + v)
  {
    Lead2Order(x, y);
    Last2Order(x, y);
    Before2(Lead2(x), Last(x), Lead2(y), Last(y), u, v);
  }

  lemma Order3(x: Rune, y: Rune, u: seq<Byte>, v: seq<Byte>)
    requires 0x800 <= x < y < 0x10000
    ensures Precedes([Lead3(x), Middle(x), Last(x)] + u, [Lead3(y), Middle(y), Last(y)] + v)
  {
    Lead3Order(x, y);
    Middle3Order(x, y);
    Last3Order(x, y);
    Before3(Lead3(x), Middle(x), Last(x), Lead3(y), Middle(y), Last(y), u, v);
  }

  lemma Order4(x: Rune, y: Rune, u: seq<Byte>, v: seq<Byte>)
    requires 0x10000 <= x < y < RUNE_LIMIT
    ensures Precedes([Lead4(x), Second4(x), Middle(x), Last(x)] + u, [Lead4(y), Second4(y), Middle(y), Last(y)] + v)
  {
    Lead4Order(x, y);
    Second4Order(x, y);
    Middle4Order(x, y);
    Last4Order(x, y);
    Before4(Lead4(x), Second4(x), Middle(x), Last(x), Lead4(y), Second4(y), Middle(y), Last(y), u, v);
  }

  /** The first bytes of encodings of different lengths are ordered like the lengths. */
  lemma LongerIsAfter(x: Rune, y: Rune)
    requires x < y < RUNE_LIMIT && |Encode(x)| != |Encode(y)|
    ensures Encode(x)[0] < Encode(y)[0]
  {
    DecodeEncode(x, []);
    DecodeEncode(y, []);
  }

  lemma SmallerLead(a: seq<Byte>, b: seq<Byte>, u: seq<Byte>, v: seq<Byte>)
    requires a != [] && b != [] && a[0] < b[0]
    ensures Precedes(a + u, b + v)
  {
    SmallerFirst(a[0], b[0], a[1..] + u, b[1..] + v);
    assert a + u == [a[0]] + (a[1..] + u) && b + v == [b[0]] + (b[1..] + v);
  }

  lemma Order1(x: Rune, y: Rune, u: seq<Byte>, v: seq<Byte>)
    requires x < y < 0x80
    ensures Precedes(Encode(x) + u, Encode(y) + v)
  {
    Split1(x);
    Split1(y);
    SmallerLead(Encode(x), Encode(y), u, v);
  }

  lemma OrderLonger(x: Rune, y: Rune, u: seq<Byte>, v: seq<Byte>)
    requires x < y < RUNE_LIMIT && |Encode(x)| != |Encode(y)|
    ensures Precedes(Encode(x) + u, Encode(y) + v)
  {
    LongerIsAfter(x, y);
    SmallerLead(Encode(x), Encode(y), u, v);
  }

  /** The smaller first rune decides, whatever follows. */
  lemma FirstRuneDecides(x: Rune, y: Rune, u: seq<Byte>, v: seq<Byte>)
    requires x < RUNE_LIMIT && y < RUNE_LIMIT
    ensures x < y ==> Precedes(Encode(x) + u, Encode(y) + v)
  {
    if x < y {
      if |Encode(x)| != |Encode(y)| { OrderLonger(x, y, u, v); }
      else if x < 0x80 { Order1(x, y, u, v); }
      else if x < 0x800 { Order2(x, y, u, v); }
      else if x < 0x10000 { Order3(x, y, u, v); }
      else { Order4(x, y, u, v); }
    }
  }

  lemma {:induction false} SameStart(c: seq<Byte>, u: seq<Byte>, v: seq<Byte>)
    ensures BytesBefore(c + u, c + v) <==> BytesBefore(u, v)
  {
    if c == [] {
      assert c + u == u && c + v == v;
    } else {
      SameStart(c[1..], u, v);
      SameFirst(c[0], c[1..] + u, c[1..] + v);
      assert c + u == [c[0]] + (c[1..] + u) && c + v == [c[0]] + (c[1..] + v);
    }
  }

  function Chunk(x: Rune, k: bv6): Byte
    requires k <= 24
  {
    ((x >> k) & 0xff) as Byte
  }

  lemma Chunks(x: Rune)
    ensures (Chunk(x, 24) as Rune << 24) | (Chunk(x, 16) as Rune << 16) |
            (Chunk(x, 8) as Rune << 8) | Chunk(x, 0) as Rune == x
  {
  }

  lemma SameChunk3(x: Rune, y: Rune)
    requires !(x < y) && !(y < x)
    ensures Chunk(x, 24) == Chunk(y, 24)
  {
  }

  lemma SameChunk2(x: Rune, y: Rune)
    requires !(x < y) && !(y < x)
    ensures Chunk(x, 16) == Chunk(y, 16)
  {
  }

  lemma SameChunk1(x: Rune, y: Rune)
    requires !(x < y) && !(y < x)
    ensures Chunk(x, 8) == Chunk(y, 8)
  {
  }

  lemma SameChunk0(x: Rune, y: Rune)
    requires !(x < y) && !(y < x)
    ensures Chunk(x, 0) == Chunk(y, 0)
  {
  }

  /** Runes of which neither is smaller are equal, eight bits at a time. */
  lemma NeitherSmaller(x: Rune, y: Rune)
    requires !(x < y) && !(y < x)
    ensures x == y
  {
    SameChunk3(x, y);
    SameChunk2(x, y);
    SameChunk1(x, y);
    SameChunk0(x, y);
    Chunks(x);
    Chunks(y);
  }

  lemma SmallerNotLarger(x: Rune, y: Rune)
    requires x < y
    ensures !(y < x) && x != y
  {
  }

  lemma FirstDecides(a: seq<Rune>, b: seq<Rune>)
    requires a != [] && b != [] && a[0] < b[0] && !(b[0] < a[0]) && a[0] != b[0]
    ensures RunesBefore(a, b) && !RunesBefore(b, a)
  {
  }

  lemma SmallerRuneFirst(x: Rune, y: Rune, xs: seq<Rune>, ys: seq<Rune>)
    requires x < y
    ensures RunesBefore([x] + xs, [y] + ys) && !RunesBefore([y] + ys, [x] + xs)
  {
    SmallerNotLarger(x, y);
    FirstDecides([x] + xs, [y] + ys);
  }

  lemma SameRuneFirst(x: Rune, xs: seq<Rune>, ys: seq<Rune>)
    ensures RunesBefore([x] + xs, [x] + ys) <==> RunesBefore(xs, ys)
  {
    assert ([x] + xs)[1..] == xs && ([x] + ys)[1..] == ys;
  }

  lemma OrderCons(x: Rune, y: Rune, xs: seq<Rune>, ys: seq<Rune>, u: seq<Byte>, v: seq<Byte>)
    requires x < RUNE_LIMIT && y < RUNE_LIMIT && (BytesBefore(u, v) <==> RunesBefore(xs, ys))
    ensures BytesBefore(Encode(x) + u, Encode(y) + v) <==> RunesBefore([x] + xs, [y] + ys)
  {
    if x < y {
      FirstRuneDecides(x, y, u, v);
      SmallerRuneFirst(x, y, xs, ys);
    } else if y < x {
      FirstRuneDecides(y, x, v, u);
      SmallerRuneFirst(y, x, ys, xs);
    } else {
      NeitherSmaller(x, y);
      SameStart(Encode(x), u, v);
      SameRuneFirst(x, xs, ys);
    }
  }

  /** RFC 3629, section 1: the byte-wise lexicographic order of encoded strings is the order of their runes. */
  lemma {:induction false} OrderPreserved(xs: seq<Rune>, ys: seq<Rune>)
    requires Encodable(xs) && Encodable(ys)
    ensures BytesBefore(EncodeAll(xs), EncodeAll(ys)) <==> RunesBefore(xs, ys)
  {
    if xs != [] && ys != [] {
      OrderPreserved(xs[1..], ys[1..]);
      OrderCons(xs[0], ys[0], xs[1..], ys[1..], EncodeAll(xs[1..]), EncodeAll(ys[1..]));
      assert [xs[0]] + xs[1..] == xs && [ys[0]] + ys[1..] == ys;
    }
  }

  // ---------------------------------------------------------------- transcoding

  /** A concatenation of well-formed characters. */
  ghost predicate WellFormedText(s: seq<Byte>)
    decreases |s|
  {
    s == [] || exists n :: 1 <= n <= |s| && WellFormed(s[..n]) && WellFormedText(s[n..])
  }

  /** The whole string decodes, to runes that can be encoded. */
  ghost predicate Transcodable(s: seq<Byte>) {
    DecodeAll(s).1 == EmptyString && Encodable(DecodeAll(s).0)
  }

  function Transcoded(s: seq<Byte>): seq<Byte>
    requires Transcodable(s)
  {
    EncodeAll(DecodeAll(s).0)
  }

  lemma TranscodeStep(s: seq<Byte>)
    requires Transcodable(s) && s != []
    ensures var d := NextRune(s);
            && d.Decoded? && d.rune < RUNE_LIMIT && Transcodable(s[d.size..])
            && Transcoded(s) == Encode(d.rune) + Transcoded(s[d.size..])
  {
    var d := NextRune(s);
    var rs := DecodeAll(s).0;
    assert d.Decoded?;
    assert rs[0] == d.rune && rs[1..] == DecodeAll(s[d.size..]).0;
  }

  lemma WellFormedHead(s: seq<Byte>) returns (r: Rune, tail: seq<Byte>)
    requires s != [] && WellFormedText(s)
    ensures r < RUNE_LIMIT && s == Encode(r) + tail && WellFormedText(tail)
  {
    var n :| 1 <= n <= |s| && WellFormed(s[..n]) && WellFormedText(s[n..]);
    WellFormedDecodes(s[..n]);
    r, tail := NextRune(s[..n]).rune, s[n..];
    assert s == s[..n] + tail;
  }

  /** An encoding at the start of a string is the way the decoder splits it. */
  lemma EncodedHead(s: seq<Byte>, r: Rune, rest: seq<Byte>)
    requires r < RUNE_LIMIT && s == Encode(r) + rest
    ensures NextRune(s) == Decoded(r, |Encode(r)|) && s[..|Encode(r)|] == Encode(r) && WellFormed(Encode(r))
    ensures s[|Encode(r)|..] == rest
  {
    DecodeEncode(r, rest);
  }

  lemma {:induction false} WellFormedIsKept(s: seq<Byte>)
    requires WellFormedText(s) && Transcodable(s)
    ensures Transcoded(s) == s
    decreases |s|
  {
    if s != [] {
      TranscodeStep(s);
      var r, tail := WellFormedHead(s);
      EncodedHead(s, r, tail);
      WellFormedIsKept(tail);
    } else {
      assert DecodeAll(s).0 == [];
    }
  }

  lemma {:induction false} KeptIsWellFormed(s: seq<Byte>)
    requires Transcodable(s) && Transcoded(s) <= s
    ensures WellFormedText(s)
    decreases |s|
  {
    if s != [] {
      TranscodeStep(s);
      var r, n := NextRune(s).rune, |Encode(NextRune(s).rune)|;
      assert s == Encode(r) + s[n..];
      EncodedHead(s, r, s[n..]);
      assert Transcoded(s[n..]) == Transcoded(s)[n..] <= s[n..];
      KeptIsWellFormed(s[n..]);
    }
  }

  lemma {:induction false} TranscodedFits(s: seq<Byte>)
    requires Transcodable(s)
    ensures |Transcoded(s)| <= |s|
    decreases |s|
  {
    if s != [] {
      TranscodeStep(s);
      EncodeDecode(s);
      TranscodedFits(s[NextRune(s).size..]);
    } else {
      assert DecodeAll(s).0 == [];
    }
  }

  /** Re-encoding fits in the space of the input, and reproduces the input exactly when it is well-formed. */
  lemma TranscodeExactlyWhen(s: seq<Byte>)
    requires Transcodable(s)
    ensures |Transcoded(s)| <= |s|
    ensures Transcoded(s) <= s <==> WellFormedText(s)
    ensures Transcoded(s) == s <==> WellFormedText(s)
  {
    TranscodedFits(s);
    if WellFormedText(s) { WellFormedIsKept(s); }
    if Transcoded(s) <= s { KeptIsWellFormed(s); }
  }

  /** Well-formed text is what the encoder produces, and nothing else. */
  lemma {:induction false} WellFormedIsEncoded(s: seq<Byte>) returns (rs: seq<Rune>)
    requires WellFormedText(s)
    ensures Encodable(rs) && EncodeAll(rs) == s
    decreases |s|
  {
    if s == [] {
      rs := [];
    } else {
      var r, tail := WellFormedHead(s);
      var rest := WellFormedIsEncoded(tail);
      EncodeCons(r, rest);
      rs := [r] + rest;
    }
  }

  lemma {:induction false} EncodedIsWellFormed(rs: seq<Rune>)
    requires Encodable(rs)
    ensures WellFormedText(EncodeAll(rs))
  {
    if rs != [] {
      var s, n := EncodeAll(rs), |Encode(rs[0])|;
      DecodeEncode(rs[0], []);
      EncodedIsWellFormed(rs[1..]);
      assert s[..n] == Encode(rs[0]) && s[n..] == EncodeAll(rs[1..]);
    }
  }
}
