/**
 * The loops of lib/core/string.h over string views and targets, proved against the codec of
 * Utf8.dfy and Utf8Sequences.dfy.
 */
module Str {
  import opened Utf8
  import opened Utf8Sequences

  /** The error codes of the source; the codes other than OK stand for the failed decodings of the same name. */
  datatype Error = OK | EMPTY_STRING | SMALL_TARGET | INCOMPLETE_RUNE | INVALID_RUNE

  function ErrorOf(d: Decoding): Error {
    match d
    case Decoded(_, _) => OK
    case EmptyString => EMPTY_STRING
    case IncompleteRune => INCOMPLETE_RUNE
    case InvalidRune => INVALID_RUNE
  }

  /** On an error the out-parameters keep the values they came with. */
  method NextRuneOf(
    self: seq<Byte>, rune0: Rune, self0: seq<Byte>) returns (e: Error, outRune: Rune, outSelf: seq<Byte>)
    ensures e == ErrorOf(NextRune(self))
    ensures e == OK ==> outRune == NextRune(self).rune && outSelf == self[NextRune(self).size..]
    ensures e != OK ==> outRune == rune0 && outSelf == self0
  {
    outRune, outSelf := rune0, self0;
    if |self| < 1 {
      return EMPTY_STRING, outRune, outSelf;
    }
    var d := 0;
    if self[0] < 0x80 {
      d := 1;
      outRune := self[0] as Rune;
    } else if self[0] < 0xe0 {
      d := 2;
      if |self| < d { return INCOMPLETE_RUNE, outRune, outSelf; }
      outRune := (Bits(self[0], 0x1f) << 6) | Bits(self[1], 0x3f);
    } else if self[0] < 0xf0 {
      d := 3;
      if |self| < d { return INCOMPLETE_RUNE, outRune, outSelf; }
      outRune := (Bits(self[0], 0x0f) << 12) | (Bits(self[1], 0x3f) << 6) | Bits(self[2], 0x3f);
    } else if self[0] < 0xf8 {
      d := 4;
      if |self| < d { return INCOMPLETE_RUNE, outRune, outSelf; }
      outRune := (Bits(self[0], 0x07) << 18) | (Bits(self[1], 0x3f) << 12) |
                 (Bits(self[2], 0x3f) << 6) | Bits(self[3], 0x3f);
    } else {
      return INVALID_RUNE, outRune, outSelf;
    }
    outSelf := self[d..];
    return OK, outRune, outSelf;
  }

  /** The number of runes of a string that decodes to its end, and the first error otherwise. */
  method RuneLen(self: seq<Byte>) returns (e: Error, outLen: nat)
    ensures e == (if DecodeAll(self).1 == EmptyString then OK else ErrorOf(DecodeAll(self).1))
    ensures e == OK ==> outLen == |DecodeAll(self).0|
  {
    var len, s := 0, self;
    var r: Rune := 0;
    outLen := 0;
    while true
      invariant DecodeAll(self).1 == DecodeAll(s).1
      invariant |DecodeAll(self).0| == len + |DecodeAll(s).0|
      decreases |s|
    {
      e, r, s := NextRuneOf(s, r, s);
      if e != OK {
        if e == EMPTY_STRING {
          return OK, len;
        }
        return e, outLen;
      }
      len := len + 1;
    }
  }

  /** The rune count of an encoding is the number of runes encoded. */
  method EncodedRuneLen(rs: seq<Rune>) returns (e: Error, len: nat)
    requires Encodable(rs)
    ensures e == OK && len == |rs|
  {
    RoundTrip(rs);
    e, len := RuneLen(EncodeAll(rs));
  }

  method Put3(target: array<Byte>, off: nat, a: Byte, b: Byte, c: Byte)
    requires off + 3 <= target.Length
    modifies target
    ensures target[..] == old(target[..off]) + [a, b, c] + old(target[off + 3..])
  {
    target[off], target[off + 1], target[off + 2] := a, b, c;
  }

  method Put4(target: array<Byte>, off: nat, a: Byte, b: Byte, c: Byte, d: Byte)
    requires off + 4 <= target.Length
    modifies target
    ensures target[..] == old(target[..off]) + [a, b, c, d] + old(target[off + 4..])
  {
    target[off], target[off + 1], target[off + 2], target[off + 3] := a, b, c, d;
  }

  /** Writes at `off` into a target that ends at `target.Length`; `next` is the offset behind what was written. */
  method EncodeNextRune(target: array<Byte>, off: nat, rune: Rune) returns (e: Error, next: nat)
    requires off <= target.Length
    modifies target
    ensures e == if rune >= RUNE_LIMIT then INVALID_RUNE
                 else if target.Length - off < |Encode(rune)| then SMALL_TARGET
                 else OK
    ensures e == OK ==> next == off + |Encode(rune)| <= target.Length &&
                        target[..] == old(target[..off]) + Encode(rune) + old(target[next..])
    ensures e != OK ==> next == off && target[..] == old(target[..])
  {
    var room := target.Length - off;
    ghost var was := target[..];
    next := off;
    if rune < 0x80 {
      if room < 1 { return SMALL_TARGET, next; }
      target[off] := (rune & 0x7f) as Byte;
      next := off + 1;
      assert target[..] == was[..off] + [(rune & 0x7f) as Byte] + was[next..];
    } else if rune < 0x800 {
      if room < 2 { return SMALL_TARGET, next; }
      target[off] := Lead2(rune);
      target[off + 1] := Last(rune);
      next := off + 2;
      assert target[..] == was[..off] + [Lead2(rune), Last(rune)] + was[next..];
    } else if rune < 0x10000 {
      if room < 3 { return SMALL_TARGET, next; }
      Put3(target, off, Lead3(rune), Middle(rune), Last(rune));
      next := off + 3;
    } else if rune < RUNE_LIMIT {
      if room < 4 { return SMALL_TARGET, next; }
      Put4(target, off, Lead4(rune), Second4(rune), Middle(rune), Last(rune));
      next := off + 4;
    } else {
      return INVALID_RUNE, next;
    }
    return OK, next;
  }

  method Eq(str1: seq<Byte>, str2: seq<Byte>) returns (r: bool)
    ensures r <==> str1 == str2
  {
    if |str1| != |str2| {
      return false;
    }
    for i := 0 to |str1|
      invariant str1[..i] == str2[..i]
    {
      if str1[i] != str2[i] {
        return false;
      }
      assert str1[..i + 1] == str1[..i] + [str1[i]] && str2[..i + 1] == str2[..i] + [str2[i]];
    }
    assert str1 == str1[..|str1|] && str2 == str2[..|str1|];
    return true;
  }

  method IsPrefix(prefix: seq<Byte>, str: seq<Byte>) returns (r: bool)
    ensures r <==> prefix <= str
  {
    if |prefix| > |str| {
      return false;
    }
    r := Eq(prefix, str[0..|prefix|]);
  }

  function TimesPrime(h: bv32): bv32 { h * 16777619 }

  function Mixed(h: bv32, b: Byte): bv32 { h ^ b as bv32 }

  /** Xor the byte into the hash, then multiply, modulo 2^32. */
  function FnvStep(h: bv32, b: Byte): bv32 { TimesPrime(Mixed(h, b)) }

  /** FNV-1a, continued from `h`. */
  function Fnv(h: bv32, s: seq<Byte>): bv32
    decreases |s|
  {
    if s == [] then h else Fnv(FnvStep(h, s[0]), s[1..])
  }

  /** The hash of a string, from the offset basis. */
  function StrHash(s: seq<Byte>): bv32 { Fnv(2166136261, s) }

  method PHash(self: seq<Byte>) returns (hash: bv32)
    ensures hash == StrHash(self)
  {
    hash := 2166136261;
    for i := 0 to |self|
      invariant Fnv(hash, self[i..]) == StrHash(self)
    {
      assert self[i..][0] == self[i] && self[i..][1..] == self[i + 1..];
      hash := FnvStep(hash, self[i]);
    }
  }

  /** Hashing a concatenation continues the hash of its first part. */
  lemma {:induction false} FnvConcat(h: bv32, s: seq<Byte>, t: seq<Byte>)
    ensures Fnv(h, s + t) == Fnv(Fnv(h, s), t)
    decreases |s|
  {
    if s == [] {
      assert s + t == t;
    } else {
      assert (s + t)[0] == s[0] && (s + t)[1..] == s[1..] + t;
      FnvConcat(FnvStep(h, s[0]), s[1..], t);
    }
  }

  lemma FnvOne(h: bv32, b: Byte)
    ensures Fnv(h, [b]) == FnvStep(h, b)
  {
    var s := [b];
    assert s[1..] == [];
  }

  lemma XorZero(h: bv32)
    ensures Mixed(h, 0) == h
  {
  }

  lemma PrimeIs(h: bv32)
    ensures TimesPrime(h) == h * 0x01000193
  {
  }

  lemma ZeroStep(h: bv32)
    ensures FnvStep(h, 0) == TimesPrime(h)
  {
    XorZero(h);
  }

  /** A zero byte multiplies the hash by the 32-bit FNV prime. */
  lemma FnvMultiplies(h: bv32)
    ensures Fnv(h, [0]) == h * 0x01000193
  {
    FnvOne(h, 0);
    ZeroStep(h);
    PrimeIs(h);
  }

  /**
   * A byte enters by exclusive or, before the multiplication: hashing it is hashing a zero byte from the
   * hash changed by it.
   */
  lemma FnvXors(h: bv32, b: Byte)
    ensures Fnv(h, [b]) == Fnv(h ^ b as bv32, [0])
  {
    FnvOne(h, b);
    FnvOne(h ^ b as bv32, 0);
    ZeroStep(h ^ b as bv32);
  }

  function Undone(product: bv32): bv32 { product * 899433627 }

  /** The prime is odd, so multiplying by it can be undone modulo 2^32. */
  lemma ProductUndone(x: bv32, product: bv32)
    requires product == x * 16777619
    ensures Undone(product) == x
  {
  }

  lemma SameProduct(x: bv32, y: bv32)
    requires TimesPrime(x) == TimesPrime(y)
    ensures x == y
  {
    ProductUndone(x, TimesPrime(x));
    ProductUndone(y, TimesPrime(y));
  }

  lemma MixedInvertible(h: bv32, k: bv32, b: Byte)
    requires Mixed(h, b) == Mixed(k, b)
    ensures h == k
  {
  }

  lemma StepInjective(h: bv32, k: bv32, b: Byte)
    requires FnvStep(h, b) == FnvStep(k, b)
    ensures h == k
  {
    SameProduct(Mixed(h, b), Mixed(k, b));
    MixedInvertible(h, k, b);
  }

  /** Hashing on forgets nothing: different hashes stay different whatever string follows. */
  lemma {:induction false} FnvInjective(h: bv32, k: bv32, s: seq<Byte>)
    requires Fnv(h, s) == Fnv(k, s)
    ensures h == k
    decreases |s|
  {
    if s != [] {
      FnvInjective(FnvStep(h, s[0]), FnvStep(k, s[0]), s[1..]);
      StepInjective(h, k, s[0]);
    }
  }

  lemma HashOne(h: bv32, b: Byte, s: seq<Byte>, next: bv32)
    requires s != [] && s[0] == b && FnvStep(h, b) == next
    ensures Fnv(h, s) == Fnv(next, s[1..])
  {
  }

  /** The values published for the empty string, "a" and "foobar". */
  lemma PublishedHashes()
    ensures StrHash([]) == 0x811C9DC5
    ensures StrHash([0x61]) == 0xE40C292C
    ensures StrHash([0x66, 0x6f, 0x6f, 0x62, 0x61, 0x72]) == 0xBF9CF968
  {
    HashOne(0x811C9DC5, 0x61, [0x61], 0xE40C292C);
    var s: seq<Byte> := [0x66, 0x6f, 0x6f, 0x62, 0x61, 0x72];
    HashOne(0x811C9DC5, 0x66, s, 0xE30C2799);
    HashOne(0xE30C2799, 0x6f, s[1..], 0x6222E842);
    HashOne(0x6222E842, 0x6f, s[2..], 0xA9F37ED7);
    HashOne(0xA9F37ED7, 0x62, s[3..], 0x3F5076EF);
    HashOne(0x3F5076EF, 0x61, s[4..], 0x39AAA18A);
    HashOne(0x39AAA18A, 0x72, s[5..], 0xBF9CF968);
  }
}
