/**
 * Decoding a string and encoding its runes into a target of the same size, as
 * test/test_string.c does, on arbitrary bytes.
 */
module Transcode {
  import opened Utf8
  import opened Utf8Sequences
  import opened Str

  lemma EncodeSnoc(rs: seq<Rune>, r: Rune)
    requires Encodable(rs) && r < RUNE_LIMIT
    ensures Encodable(rs + [r]) && EncodeAll(rs + [r]) == EncodeAll(rs) + Encode(r)
  {
    EncodeConcat(rs, [r]);
    assert EncodeAll([r]) == Encode(r) + EncodeAll([]);
  }

  lemma Overwritten(done: seq<Byte>, c: seq<Byte>, input: seq<Byte>, was: seq<Byte>, now: seq<Byte>)
    requires |done| + |c| <= |input| && was == done + input[|done|..]
    requires now == was[..|done|] + c + was[|done| + |c|..]
    ensures now == done + c + input[|done| + |c|..]
  {
    assert was[..|done|] == done;
    assert was[|done| + |c|..] == input[|done| + |c|..];
  }

  /** Overwriting the start of `s` with `p` changes `s` unless `p` is a prefix of it. */
  lemma PrefixOrNot(p: seq<Byte>, s: seq<Byte>)
    requires |p| <= |s|
    ensures p + s[|p|..] == s <==> p <= s
  {
    if p <= s { assert s == s[..|p|] + s[|p|..]; }
    assert (p + s[|p|..])[..|p|] == p;
  }

  /** Decoding `done` led from `input` to its suffix `s`. */
  ghost predicate Reached(input: seq<Byte>, done: seq<Rune>, s: seq<Byte>) {
    && Encodable(done)
    && DecodeAll(input) == (done + DecodeAll(s).0, DecodeAll(s).1)
    && |EncodeAll(done)| + |s| <= |input|
  }

  lemma ReachedNext(input: seq<Byte>, done: seq<Rune>, s: seq<Byte>)
    requires Reached(input, done, s) && NextRune(s).Decoded? && NextRune(s).rune < RUNE_LIMIT
    ensures var d := NextRune(s);
            && Reached(input, done + [d.rune], s[d.size..])
            && EncodeAll(done + [d.rune]) == EncodeAll(done) + Encode(d.rune)
            && |EncodeAll(done)| + |Encode(d.rune)| <= |input|
  {
    var d := NextRune(s);
    EncodeSnoc(done, d.rune);
    EncodeDecode(s);
    assert done + DecodeAll(s).0 == done + [d.rune] + DecodeAll(s[d.size..]).0;
  }

  lemma ReachedStart(input: seq<Byte>)
    ensures Reached(input, [], input)
  {
    assert [] + DecodeAll(input).0 == DecodeAll(input).0;
  }

  /** At the end of the input the runes decoded are all of its runes. */
  lemma ReachedEnd(input: seq<Byte>, done: seq<Rune>)
    requires Reached(input, done, [])
    ensures Transcodable(input) && Transcoded(input) == EncodeAll(done) && |Transcoded(input)| <= |input|
    ensures EncodeAll(done) + input[|EncodeAll(done)|..] == input <==> WellFormedText(input)
  {
    assert done + DecodeAll([]).0 == done;
    TranscodeExactlyWhen(input);
    PrefixOrNot(Transcoded(input), input);
  }

  lemma ReachedTooLarge(input: seq<Byte>, done: seq<Rune>, s: seq<Byte>)
    requires Reached(input, done, s) && NextRune(s).Decoded? && NextRune(s).rune >= RUNE_LIMIT
    ensures !Transcodable(input)
  {
    assert DecodeAll(input).0[|done|] == NextRune(s).rune;
  }

  /** A string that does not decode, short of its end, has no transcoding. */
  lemma ReachedError(input: seq<Byte>, done: seq<Rune>, s: seq<Byte>)
    requires Reached(input, done, s) && !NextRune(s).Decoded? && !NextRune(s).EmptyString?
    ensures !Transcodable(input)
  {
  }

  /** The target holds what the runes so far encode to, and the input behind that. */
  ghost predicate Holds(input: seq<Byte>, done: seq<Rune>, off: nat, target: seq<Byte>) {
    Encodable(done) && off == |EncodeAll(done)| <= |input| && target == EncodeAll(done) + input[off..]
  }

  /** Encodes one more rune. */
  method Put(input: seq<Byte>, ghost done: seq<Rune>, ghost s: seq<Byte>, target: array<Byte>, off: nat, r: Rune)
    returns (e: Error, next: nat)
    requires Reached(input, done, s) && NextRune(s).Decoded? && r == NextRune(s).rune
    requires target.Length == |input| && Holds(input, done, off, target[..])
    modifies target
    ensures e != OK ==> !Transcodable(input) && e == INVALID_RUNE
    ensures e == OK ==> r < RUNE_LIMIT && Reached(input, done + [r], s[NextRune(s).size..])
    ensures e == OK ==> Holds(input, done + [r], next, target[..])
  {
    if r >= RUNE_LIMIT { ReachedTooLarge(input, done, s); } else { ReachedNext(input, done, s); }
    ghost var was := target[..];
    e, next := EncodeNextRune(target, off, r);
    if e == OK { Overwritten(EncodeAll(done), Encode(r), input, was, target[..]); }
  }

  /**
   * The loop succeeds exactly when every byte belongs to a decodable sequence whose rune can be
   * encoded; it never finds its target too small; and it gives back its input exactly when that is
   * well-formed text.
   */
  method Transcode(input: seq<Byte>) returns (e: Error, target: array<Byte>)
    ensures fresh(target) && target.Length == |input|
    ensures e == OK <==> Transcodable(input)
    ensures e != SMALL_TARGET
    ensures e == OK ==> |Transcoded(input)| <= |input| &&
                        target[..] == Transcoded(input) + input[|Transcoded(input)|..]
    ensures e == OK ==> (target[..] == input <==> WellFormedText(input))
  {
    target := new Byte[|input|](i requires 0 <= i < |input| => input[i]);
    var s, off, r := input, 0, 0;
    ghost var done: seq<Rune> := [];
    ReachedStart(input);
    while true
      invariant target.Length == |input| && fresh(target)
      invariant Reached(input, done, s) && Holds(input, done, off, target[..])
      decreases |s|
    {
      ghost var before := s;
      e, r, s := NextRuneOf(s, r, s);
      if e != OK {
        if e == EMPTY_STRING {
          ReachedEnd(input, done);
          return OK, target;
        }
        ReachedError(input, done, before);
        return e, target;
      }
      e, off := Put(input, done, before, target, off, r);
      if e != OK {
        return e, target;
      }
      done := done + [r];
    }
  }
}
