/**
 * How the buckets are occupied: how many are, when buckets and stored slots are in bijection, and
 * when the probe loop ends at neither a match nor a free bucket.
 */
module HashTableBuckets {
  import opened Wrappers
  import opened HashTable
  import opened HashTableLemmas
  import opened HashTableGrowth
  import opened HashTableHistory
  import opened HashTableRuns
  import opened HashTablePuts

  // ---------------------------------------------------------------- bijection

  /** Some bucket points at each of the first `m` slots. */
  ghost predicate Covers(bs: seq<Bucket>, m: nat) {
    forall s :: 0 <= s < m ==> Used(s, s) in bs
  }

  lemma {:induction false} CoverNeeds(bs: seq<Bucket>, m: nat)
    requires Covers(bs, m)
    ensures m <= UsedCount(bs)
    decreases m
  {
    if m > 0 {
      assert Used(m - 1, m - 1) in bs;
      var b :| 0 <= b < |bs| && bs[b] == Used(m - 1, m - 1);
      var bs' := bs[b := Free];
      forall s | 0 <= s < m - 1 ensures Used(s, s) in bs' {
        var c :| 0 <= c < |bs| && bs[c] == Used(s, s);
        assert bs'[c] == Used(s, s);
      }
      UsedCountUpdate(bs, b, Free);
      CoverNeeds(bs', m - 1);
    }
  }

  /** Occupied buckets point at slots below `m`, different ones at different slots. */
  ghost predicate Injective(bs: seq<Bucket>, m: nat) {
    && (forall b :: 0 <= b < |bs| && bs[b].Used? ==> bs[b].key < m)
    && (forall b, c :: 0 <= b < c < |bs| && bs[b].Used? && bs[c].Used? ==> bs[b].key != bs[c].key)
  }

  lemma {:induction false} UsedCountNone(bs: seq<Bucket>)
    requires forall b :: 0 <= b < |bs| ==> bs[b].Free?
    ensures UsedCount(bs) == 0
  {
    if bs != [] { UsedCountNone(bs[1..]); }
  }

  lemma {:induction false} InjectiveBounds(bs: seq<Bucket>, m: nat)
    requires Injective(bs, m)
    ensures UsedCount(bs) <= m
    decreases m
  {
    if m == 0 {
      UsedCountNone(bs);
    } else if b :| 0 <= b < |bs| && bs[b].Used? && bs[b].key == m - 1 {
      UsedCountUpdate(bs, b, Free);
      InjectiveBounds(bs[b := Free], m - 1);
    } else {
      InjectiveBounds(bs, m - 1);
    }
  }

  /** The occupied buckets are in bijection with the stored slots. */
  ghost predicate Bijective<K, V>(t: Table<K, V>) {
    Injective(t.buckets, t.count) && Covers(t.buckets, t.count)
  }

  /** With one bucket for each stored slot and no more buckets than that, they are in bijection. */
  lemma EnoughIsBijective(bs: seq<Bucket>, m: nat)
    requires Covers(bs, m) && UsedCount(bs) == m
    requires forall b :: 0 <= b < |bs| && bs[b].Used? ==> bs[b].key == bs[b].value
    ensures Injective(bs, m)
  {
    forall b | 0 <= b < |bs| && bs[b].Used? && (bs[b].key >= m || exists c :: 0 <= c < |bs| && c != b && bs[c] == bs[b])
      ensures false
    {
      UsedCountUpdate(bs, b, Free);
      forall s | 0 <= s < m ensures Used(s, s) in bs[b := Free] {
        var d :| 0 <= d < |bs| && bs[d] == Used(s, s);
        if d == b {
          var c :| 0 <= c < |bs| && c != b && bs[c] == bs[b];
          assert bs[b := Free][c] == Used(s, s);
        } else {
          assert bs[b := Free][d] == Used(s, s);
        }
      }
      CoverNeeds(bs[b := Free], m);
    }
  }

  /** Every slot that stores the zero key is the one that looking it up leads to. */
  ghost predicate ZerosFound<K, V>(ty: KeyType<K>, t: Table<K, V>)
    requires WellFormed(t) && t.count <= Cap(t)
  {
    forall s :: 0 <= s < t.count && IsZero(ty, t.keys[s]) ==> Found(ty, t, ty.zero) == Some(s)
  }

  lemma BijectiveFound<K, V>(ty: KeyType<K>, t: Table<K, V>)
    requires Orderly(ty, t, t.count) && Bijective(t)
    ensures UsedCount(t.buckets) == t.count && ZerosFound(ty, t)
  {
    CoverNeeds(t.buckets, t.count);
    InjectiveBounds(t.buckets, t.count);
    forall s | 0 <= s < t.count && IsZero(ty, t.keys[s]) ensures Found(ty, t, ty.zero) == Some(s) {
      assert Used(s, s) in t.buckets;
    }
  }

  lemma FoundBijective<K(!new), V>(ty: KeyType<K>, t: Table<K, V>)
    requires Orderly(ty, t, t.count) && UsedCount(t.buckets) == t.count && ZerosFound(ty, t)
    ensures Bijective(t)
  {
    forall s | 0 <= s < t.count ensures Used(s, s) in t.buckets {
      var key := if IsZero(ty, t.keys[s]) then ty.zero else t.keys[s];
      assert Found(ty, t, key) == Some(s);
      assert t.buckets[GetBucket(ty, t, key).value] == Used(s, s);
    }
    EnoughIsBijective(t.buckets, t.count);
  }

  /**
   * Buckets and stored slots are in bijection exactly when there are as many, and the zero key is found
   * wherever it is stored.
   */
  lemma BijectiveTable<K(!new), V>(ty: KeyType<K>, t: Table<K, V>)
    requires Orderly(ty, t, t.count)
    ensures Bijective(t) <==> UsedCount(t.buckets) == t.count && ZerosFound(ty, t)
  {
    if Bijective(t) { BijectiveFound(ty, t); }
    if UsedCount(t.buckets) == t.count && ZerosFound(ty, t) { FoundBijective(ty, t); }
  }

  /**
   * In the state any run leaves, occupied buckets and stored slots are in bijection if and only if
   * there are as many of both and the zero key, if stored, is stored once and found there.
   */
  lemma BijectionExactlyWhen<K(!new), V>(ty: KeyType<K>, zeroValue: V, cap: nat, ops: seq<Op<K, V>>)
    requires Lawful(ty) && 0 < cap
    ensures var r, s := Run(ty, zeroValue, cap, ops), OutlineOf(ty, zeroValue, cap, ops);
            && r.Some?
            && (Bijective(r.value) <==>
                s.used == s.count && s.count - s.others == if s.zero.Some? && s.zero.value.slot < s.count then 1 else 0)
  {
    RunTracks(ty, zeroValue, cap, ops);
    var t, s := Run(ty, zeroValue, cap, ops).value, OutlineOf(ty, zeroValue, cap, ops);
    BijectiveTable(ty, t);
    ZerosAt(ty, t.keys, t.count, if s.zero.Some? then s.zero.value.slot else t.count);
  }

  // ---------------------------------------------------------------- occupation

  /**
   * In the state any run leaves there is a spare slot, at most one bucket more is occupied than keys
   * are stored, and a lookup yields a null bucket exactly for a key whose set makes the map grow, in a
   * table with that one bucket more.
   */
  lemma NullExactlyWhen<K(!new), V>(ty: KeyType<K>, zeroValue: V, cap: nat, ops: seq<Op<K, V>>, key: K)
    requires Lawful(ty) && 0 < cap
    ensures var r, s := Run(ty, zeroValue, cap, ops), OutlineOf(ty, zeroValue, cap, ops);
            && r.Some?
            && r.value.count == s.count < s.cap == Cap(r.value) && UsedCount(r.value.buckets) == s.used <= s.count + 1
            && (GetBucket(ty, r.value, key).None? <==> GrowsNext(ty, zeroValue, cap, ops, key) && s.used == s.count + 1)
  {
    RunTracks(ty, zeroValue, cap, ops);
    var t := Run(ty, zeroValue, cap, ops).value;
    NullBucketMeaning(ty, t, key);
    FoundAsTold(ty, zeroValue, t, cap, ops, key);
  }

  /** The last set that made the map grow, if any did, set a key unequal to zero. */
  predicate GrownByOther<K, V>(ty: KeyType<K>, zeroValue: V, cap: nat, ops: seq<Op<K, V>>)
    requires 0 < cap
  {
    if ops == [] then false
    else
      var before, op := ops[..|ops| - 1], ops[|ops| - 1];
      if op.Put? && GrowsNext(ty, zeroValue, cap, before, op.key) then !IsZero(ty, op.key)
      else GrownByOther(ty, zeroValue, cap, before)
  }

  /** The zero key is stored once if it was set, and one bucket more is occupied if `extra`. */
  ghost predicate Plain<V>(s: Outline<V>, set0: bool, extra: bool) {
    && (s.zero.Some? <==> set0)
    && s.count - s.others == (if s.zero.Some? then 1 else 0)
    && s.used == s.count + if extra then 1 else 0
  }

  /** One set that does not grow the map over the zero key. */
  lemma PlainNext<V>(zeroValue: V, s: Outline<V>, isZero: bool, found: bool, value: V, set0: bool, extra: bool)
    requires Sensible(s) && Plain(s, set0, extra) && (s.zero.Some? ==> s.zero.value.slot < s.count)
    requires (isZero ==> found == s.zero.Some?) && (set0 && !found ==> s.count < s.cap - 1)
    ensures Plain(Next(zeroValue, s, isZero, found, value), set0 || isZero,
                  if !found && s.count == s.cap - 1 then !isZero else extra)
  {
  }

  /** In a safe run of sets one bucket too many is occupied exactly since a growth caused by a key unequal to zero. */
  lemma {:induction false} OneTooMany<K(!new), V(!new)>(ty: KeyType<K>, zeroValue: V, cap: nat, ops: seq<Op<K, V>>)
    requires Lawful(ty) && 0 < cap && PutsOnly(ops) && ZeroSafe(ty, zeroValue, cap, ops)
    ensures Plain(OutlineOf(ty, zeroValue, cap, ops), LastPut(ty, ops, ty.zero).Some?,
            GrownByOther(ty, zeroValue, cap, ops))
  {
    if ops != [] {
      var before, op := ops[..|ops| - 1], ops[|ops| - 1];
      assert before + [op] == ops && op.Put?;
      assert PutsOnly(before) by { assert forall n :: 0 <= n < |before| ==> before[n] == ops[n]; }
      ZeroSafeSnoc(ty, zeroValue, cap, before, op);
      OneTooMany(ty, zeroValue, cap, before);
      NeverSpare(ty, zeroValue, cap, before);
      var s := OutlineOf(ty, zeroValue, cap, before);
      PlainNext(zeroValue, s, IsZero(ty, op.key), IsFound(ty, before, s, op.key), op.value,
                LastPut(ty, before, ty.zero).Some?, GrownByOther(ty, zeroValue, cap, before));
      assert IsZero(ty, op.key) <==> ty.eq(op.key, ty.zero);
    }
  }

  /**
   * In a safe run of sets: buckets and slots are in bijection unless the last growth was caused by a
   * key unequal to zero; and if it was, a lookup yields null exactly for keys whose set makes the map grow.
   */
  lemma OccupancyThroughout<K(!new), V(!new)>(ty: KeyType<K>, zeroValue: V, cap: nat, ops: seq<Op<K, V>>, key: K)
    requires Lawful(ty) && 0 < cap && PutsOnly(ops) && ZeroSafe(ty, zeroValue, cap, ops)
    ensures var r, g := Run(ty, zeroValue, cap, ops), GrownByOther(ty, zeroValue, cap, ops);
            && r.Some?
            && UsedCount(r.value.buckets) == r.value.count + (if g then 1 else 0)
            && (Bijective(r.value) <==> !g)
            && (GetBucket(ty, r.value, key).None? <==> g && GrowsNext(ty, zeroValue, cap, ops, key))
  {
    OneTooMany(ty, zeroValue, cap, ops);
    NeverSpare(ty, zeroValue, cap, ops);
    BijectionExactlyWhen(ty, zeroValue, cap, ops);
    NullExactlyWhen(ty, zeroValue, cap, ops, key);
  }
}
